/** The output buffer of the serialiser: bytes collected in UTF-8, converted chunk by chunk on the way out. */
module BufferedWriters {
  import opened Utf
  import opened OutputConversion

  const Capacity: nat := 2048

  // ----- what is sent when

  /** The chunks already sent, before conversion, and the bytes still in the buffer. */
  datatype Progress = Progress(sent: seq<seq<Byte>>, pending: seq<Byte>)

  predicate Fits(b: Progress) {
    |b.pending| <= Capacity
  }

  function Flushed(b: Progress): Progress {
    if b.pending == [] then b else Progress(b.sent + [b.pending], [])
  }

  /** A long string goes out in chunks that fit the scratch buffer and end between code points. */
  function InChunks(sent: seq<seq<Byte>>, data: seq<Byte>): (b: Progress)
    ensures Fits(b)
    decreases |data|
  {
    if |data| <= Capacity then Progress(sent, data)
    else
      var n := ValidLength(data[..Capacity]);
      InChunks(sent + [data[..n]], data[n..])
  }

  function Direct(enc: Encoding, b: Progress, data: seq<Byte>): (r: Progress)
    ensures Fits(r)
  {
    var f := Flushed(b);
    if |data| > Capacity && enc == Utf8 then Progress(f.sent + [data], []) else InChunks(f.sent, data)
  }

  datatype Write = String(text: seq<Byte>) | Buffer(text: seq<Byte>) | Few(text: seq<Byte>)

  /** write() takes one to six characters. */
  predicate Callable(w: Write) {
    w.Few? ==> 1 <= |w.text| <= 6
  }

  /** How many characters of a string fit in the buffer. */
  function Room(b: Progress, data: seq<Byte>): (k: nat)
    requires Fits(b)
    ensures k <= |data|
  {
    if |b.pending| + |data| <= Capacity then |data| else Capacity - |b.pending|
  }

  function Apply(enc: Encoding, b: Progress, w: Write): (r: Progress)
    requires Fits(b) && Callable(w)
    ensures Fits(r)
  {
    match w
    case Buffer(text) =>
      if |b.pending| + |text| <= Capacity then b.(pending := b.pending + text) else Direct(enc, b, text)
    case String(text) =>
      var k := Room(b, text);
      if |b.pending| + k < Capacity then b.(pending := b.pending + text)
      else
        var n := ValidLength(text[..k]);
        Direct(enc, b.(pending := b.pending + text[..n]), text[n..])
    case Few(text) =>
      var f := if |b.pending| > Capacity - |text| then Flushed(b) else b;
      f.(pending := f.pending + text)
  }

  predicate AllCallable(ws: seq<Write>) {
    forall i :: 0 <= i < |ws| ==> Callable(ws[i])
  }

  function After(enc: Encoding, ws: seq<Write>): (b: Progress)
    requires AllCallable(ws)
    ensures Fits(b)
  {
    if ws == [] then Progress([], []) else Apply(enc, After(enc, ws[..|ws| - 1]), ws[|ws| - 1])
  }

  function Concat(ss: seq<seq<Byte>>): seq<Byte> {
    if ss == [] then [] else Concat(ss[..|ss| - 1]) + ss[|ss| - 1]
  }

  function ConvertAll(enc: Encoding, ss: seq<seq<Byte>>): seq<Byte> {
    if ss == [] then [] else ConvertAll(enc, ss[..|ss| - 1]) + Converted(enc, ss[|ss| - 1])
  }

  function Texts(ws: seq<Write>): seq<Byte> {
    if ws == [] then [] else Texts(ws[..|ws| - 1]) + ws[|ws| - 1].text
  }

  /** What the sink holds after the writes and the final flush. */
  function Output(enc: Encoding, ws: seq<Write>): seq<Byte>
    requires AllCallable(ws)
  {
    ConvertAll(enc, Flushed(After(enc, ws)).sent)
  }

  // ----- nothing is lost or reordered before conversion

  function Text(b: Progress): seq<Byte> {
    Concat(b.sent) + b.pending
  }

  lemma ConcatMore(ss: seq<seq<Byte>>, s: seq<Byte>)
    ensures Concat(ss + [s]) == Concat(ss) + s
  {
    assert (ss + [s])[..|ss|] == ss;
  }

  lemma ConvertMore(enc: Encoding, ss: seq<seq<Byte>>, s: seq<Byte>)
    ensures ConvertAll(enc, ss + [s]) == ConvertAll(enc, ss) + Converted(enc, s)
  {
    hide Converted;
    assert (ss + [s])[..|ss|] == ss;
  }

  lemma FlushedText(b: Progress)
    ensures Text(Flushed(b)) == Text(b) && Flushed(b).pending == []
  {
    if b.pending != [] {
      ConcatMore(b.sent, b.pending);
    }
  }

  lemma {:induction false} ChunksText(sent: seq<seq<Byte>>, data: seq<Byte>)
    ensures Text(InChunks(sent, data)) == Concat(sent) + data
    decreases |data|
  {
    if |data| > Capacity {
      hide ValidLength;
      var n := ValidLength(data[..Capacity]);
      ChunksText(sent + [data[..n]], data[n..]);
      ConcatMore(sent, data[..n]);
      assert data == data[..n] + data[n..];
    }
  }

  lemma DirectText(enc: Encoding, b: Progress, data: seq<Byte>)
    ensures Text(Direct(enc, b, data)) == Text(b) + data
  {
    hide InChunks;
    FlushedText(b);
    ConcatMore(Flushed(b).sent, data);
    ChunksText(Flushed(b).sent, data);
  }

  lemma Regroup(a: seq<Byte>, b: seq<Byte>, c: seq<Byte>)
    ensures a + (b + c) == (a + b) + c
  {
  }

  /** A write appends exactly its text, whatever the text. */
  lemma ApplyText(enc: Encoding, b: Progress, w: Write)
    requires Fits(b) && Callable(w)
    ensures Text(Apply(enc, b, w)) == Text(b) + w.text
  {
    hide Direct, Concat, ValidLength, Flushed;
    var text := w.text;
    Regroup(Concat(b.sent), b.pending, text);
    DirectText(enc, b, text);
    if w.Few? {
      FlushedText(b);
      Regroup(Concat(Flushed(b).sent), Flushed(b).pending, text);
    } else if w.String? {
      var n := ValidLength(text[..Room(b, text)]);
      DirectText(enc, b.(pending := b.pending + text[..n]), text[n..]);
      Regroup(Concat(b.sent), b.pending, text[..n]);
      Regroup(Text(b), text[..n], text[n..]);
      assert text[..n] + text[n..] == text;
    }
  }

  lemma {:induction false} AfterText(enc: Encoding, ws: seq<Write>)
    requires AllCallable(ws)
    ensures Text(After(enc, ws)) == Texts(ws)
  {
    hide Apply;
    if ws != [] {
      AfterText(enc, ws[..|ws| - 1]);
      ApplyText(enc, After(enc, ws[..|ws| - 1]), ws[|ws| - 1]);
    }
  }

  // ----- faithful as long as no chunk ends inside a code point

  /** What was sent is the conversion of its text, and the buffer starts at a code point. */
  ghost predicate Faithful(enc: Encoding, b: Progress) {
    ConvertAll(enc, b.sent) == Converted(enc, Concat(b.sent)) && Cuts(enc, Concat(b.sent), b.pending)
  }

  /** A text that starts at a code point; in the native encoding any text. */
  predicate Accepts(enc: Encoding, data: seq<Byte>) {
    enc.Utf8? || data == [] || !IsCont(data[0])
  }

  lemma AcceptsCuts(enc: Encoding, before: seq<Byte>, data: seq<Byte>)
    requires Accepts(enc, data)
    ensures Cuts(enc, before, data)
  {
  }

  lemma CutsEmpty(enc: Encoding, before: seq<Byte>)
    ensures Cuts(enc, before, [])
  {
  }

  /** Sending the front of the rest keeps the remaining cut clean. */
  lemma CutsAdvance(enc: Encoding, before: seq<Byte>, rest: seq<Byte>, n: nat)
    requires Cuts(enc, before, rest) && 0 < n <= |rest|
    requires n < |rest| ==> !IsCont(rest[n]) || Closed(rest[..n])
    ensures Cuts(enc, before, rest[..n]) && Cuts(enc, before + rest[..n], rest[n..])
  {
    assert rest[..n][0] == rest[0];
    if Closed(rest[..n]) {
      assert Closed(before + rest[..n]);
    }
  }

  /** A longer pending part starts with the same cut. */
  lemma CutsExtend(enc: Encoding, before: seq<Byte>, pending: seq<Byte>, more: seq<Byte>)
    requires Cuts(enc, before, pending) && Cuts(enc, before + pending, more)
    ensures Cuts(enc, before, pending + more)
  {
    if pending == [] {
      assert before + pending == before && pending + more == more;
    } else {
      assert (pending + more)[0] == pending[0];
    }
  }

  /** One more chunk. */
  lemma SendFaithful(enc: Encoding, sent: seq<seq<Byte>>, chunk: seq<Byte>)
    requires ConvertAll(enc, sent) == Converted(enc, Concat(sent)) && Cuts(enc, Concat(sent), chunk)
    ensures ConvertAll(enc, sent + [chunk]) == Converted(enc, Concat(sent + [chunk]))
  {
    hide Converted, Cuts, ConvertAll, Concat;
    ConvertMore(enc, sent, chunk);
    ConcatMore(sent, chunk);
    ConvertedJoin(enc, Concat(sent), chunk);
  }

  lemma FlushedFaithful(enc: Encoding, b: Progress)
    requires Faithful(enc, b)
    ensures Faithful(enc, Flushed(b))
  {
    hide Converted, Cuts, ConvertAll, Concat;
    if b.pending != [] {
      SendFaithful(enc, b.sent, b.pending);
      CutsEmpty(enc, Concat(b.sent + [b.pending]));
    }
  }

  lemma {:induction false} ChunksFaithful(enc: Encoding, sent: seq<seq<Byte>>, data: seq<Byte>)
    requires ConvertAll(enc, sent) == Converted(enc, Concat(sent)) && Cuts(enc, Concat(sent), data)
    ensures Faithful(enc, InChunks(sent, data))
    decreases |data|
  {
    hide Converted, Cuts, ConvertAll, Concat, ValidLength;
    if |data| > Capacity {
      var n := ValidLength(data[..Capacity]);
      assert data[..Capacity][..n] == data[..n];
      assert n == Capacity ==> data[..Capacity] == data[..n];
      CutsAdvance(enc, Concat(sent), data, n);
      SendFaithful(enc, sent, data[..n]);
      ConcatMore(sent, data[..n]);
      ChunksFaithful(enc, sent + [data[..n]], data[n..]);
    }
  }

  lemma DirectFaithful(enc: Encoding, b: Progress, data: seq<Byte>)
    requires Faithful(enc, b) && Cuts(enc, Text(b), data)
    ensures Faithful(enc, Direct(enc, b, data))
  {
    hide Converted, Cuts, ConvertAll, Concat, InChunks;
    FlushedText(b);
    FlushedFaithful(enc, b);
    var f := Flushed(b);
    assert Concat(f.sent) + [] == Concat(f.sent);
    SendFaithful(enc, f.sent, data);
    CutsEmpty(enc, Concat(f.sent + [data]));
    ChunksFaithful(enc, f.sent, data);
  }

  /** A text that starts at a code point keeps the output faithful, whatever the state of the buffer. */
  lemma ApplyFaithful(enc: Encoding, b: Progress, w: Write)
    requires Fits(b) && Callable(w) && Faithful(enc, b) && Accepts(enc, w.text)
    ensures Faithful(enc, Apply(enc, b, w))
  {
    hide Converted, Cuts, ConvertAll, Concat, Direct, ValidLength, Accepts, Flushed;
    var text := w.text;
    AcceptsCuts(enc, Text(b), text);
    CutsExtend(enc, Concat(b.sent), b.pending, text);
    match w
    case Buffer(_) => DirectFaithful(enc, b, text);
    case Few(_) =>
      FlushedFaithful(enc, b);
      FlushedText(b);
      CutsExtend(enc, Concat(Flushed(b).sent), Flushed(b).pending, text);
    case String(_) =>
      var k := Room(b, text);
      var n := ValidLength(text[..k]);
      BacktrackClean(enc, Concat(b.sent), b.pending, text, k, n);
      DirectFaithful(enc, b.(pending := b.pending + text[..n]), text[n..]);
  }

  lemma BacktrackClean(enc: Encoding, before: seq<Byte>, pending: seq<Byte>, data: seq<Byte>, k: nat, n: nat)
    requires n <= k <= |data| && Cuts(enc, before, pending) && Accepts(enc, data)
    requires 0 < n < k ==> !IsCont(data[n])
    requires 0 < n == k ==> Closed(data[..k])
    ensures Cuts(enc, before, pending + data[..n])
    ensures Cuts(enc, before + (pending + data[..n]), data[n..])
  {
    AcceptsCuts(enc, before + pending, data[..n]);
    CutsExtend(enc, before, pending, data[..n]);
    if n == k && n > 0 {
      assert Closed(before + (pending + data[..n]));
    } else if n == 0 {
      assert data[n..] == data;
    }
  }

  lemma {:induction false} AfterFaithful(enc: Encoding, ws: seq<Write>)
    requires AllCallable(ws) && forall i :: 0 <= i < |ws| ==> Accepts(enc, ws[i].text)
    ensures Faithful(enc, After(enc, ws))
  {
    if ws == [] {
      ConvertedNothing(enc);
    } else {
      hide Converted, Cuts, ConvertAll, Concat, Apply, Accepts;
      AfterFaithful(enc, ws[..|ws| - 1]);
      ApplyFaithful(enc, After(enc, ws[..|ws| - 1]), ws[|ws| - 1]);
    }
  }

  /** Any texts that start at a code point: the output is the conversion of their concatenation. */
  lemma OutputFaithful(enc: Encoding, ws: seq<Write>)
    requires AllCallable(ws) && forall i :: 0 <= i < |ws| ==> Accepts(enc, ws[i].text)
    ensures Output(enc, ws) == Converted(enc, Texts(ws))
  {
    hide Converted, Cuts, ConvertAll, Concat, Flushed, After;
    AfterFaithful(enc, ws);
    AfterText(enc, ws);
    FlushedFaithful(enc, After(enc, ws));
    FlushedText(After(enc, ws));
    var f := Flushed(After(enc, ws));
    assert Concat(f.sent) + [] == Concat(f.sent);
  }

  // ----- exactly which texts are safe

  lemma {:induction false} ChunksPrefix(sent: seq<seq<Byte>>, data: seq<Byte>)
    ensures InChunks(sent, data) == Progress(sent + InChunks([], data).sent, InChunks([], data).pending)
    decreases |data|
  {
    hide ValidLength;
    if |data| > Capacity {
      var n := ValidLength(data[..Capacity]);
      ChunksPrefix(sent + [data[..n]], data[n..]);
      ChunksPrefix([data[..n]], data[n..]);
      assert [] + [data[..n]] == [data[..n]];
      assert (sent + [data[..n]]) + InChunks([], data[n..]).sent == sent + ([data[..n]] + InChunks([], data[n..]).sent);
    } else {
      assert sent + [] == sent;
    }
  }

  lemma {:induction false} ConvertJoin(enc: Encoding, a: seq<seq<Byte>>, b: seq<seq<Byte>>)
    ensures ConvertAll(enc, a + b) == ConvertAll(enc, a) + ConvertAll(enc, b)
    decreases |b|
  {
    hide Converted;
    if b == [] {
      assert a + b == a;
    } else {
      ConvertJoin(enc, a, b[..|b| - 1]);
      assert (a + b)[..|a + b| - 1] == a + b[..|b| - 1];
    }
  }

  /** Everything a fresh writer is handed at once comes out converted, wherever the text starts. */
  lemma FreshFaithful(enc: Encoding, data: seq<Byte>)
    ensures ConvertAll(enc, Flushed(InChunks([], data)).sent) == Converted(enc, data)
  {
    hide Converted, InChunks, Flushed, Cuts;
    ConvertedNothing(enc);
    CutsFirst(enc, data);
    ChunksFaithful(enc, [], data);
    ChunksText([], data);
    FlushedFaithful(enc, InChunks([], data));
    FlushedText(InChunks([], data));
    var f := Flushed(InChunks([], data));
    assert Concat(f.sent) + [] == Concat(f.sent) && [] + data == data;
  }

  lemma CutsFirst(enc: Encoding, data: seq<Byte>)
    ensures Cuts(enc, [], data)
  {
  }

  /** A text written when the buffer is full is converted apart from what the buffer holds. */
  lemma FullBuffer(enc: Encoding, full: seq<Byte>, w: Write)
    requires |full| == Capacity && !enc.Utf8? && Callable(w) && w.text != []
    ensures ConvertAll(enc, Flushed(Apply(enc, Progress([], full), w)).sent) == Converted(enc, full) + Converted(enc, w.text)
  {
    hide Converted, InChunks, ConvertAll, ValidLength;
    var b := Progress([], full);
    assert Flushed(b) == Progress([full], []) by {
      assert [] + [full] == [full];
    }
    assert w.text[0..] == w.text && full + w.text[..0] == full;
    assert Direct(enc, b, w.text) == InChunks([full], w.text);
    ChunksPrefix([full], w.text);
    FullApply(enc, full, w);
    var part := InChunks([], w.text);
    FreshFaithful(enc, w.text);
    FlushedPrefix([full], part);
    ConvertJoin(enc, [full], Flushed(part).sent);
    OneChunk(enc, full);
  }

  lemma FullApply(enc: Encoding, full: seq<Byte>, w: Write)
    requires |full| == Capacity && !enc.Utf8? && Callable(w) && w.text != []
    ensures Apply(enc, Progress([], full), w) == InChunks([full], w.text)
  {
    hide ValidLength;
    assert [] + [full] == [full] && [] + w.text == w.text;
    assert w.text[0..] == w.text && full + w.text[..0] == full;
    assert w.String? ==> ValidLength(w.text[..0]) == 0;
  }

  lemma FlushedPrefix(sent: seq<seq<Byte>>, b: Progress)
    ensures Flushed(Progress(sent + b.sent, b.pending)).sent == sent + Flushed(b).sent
  {
    assert (sent + b.sent) + [b.pending] == sent + (b.sent + [b.pending]);
  }

  lemma OneChunk(enc: Encoding, s: seq<Byte>)
    ensures ConvertAll(enc, [s]) == Converted(enc, s)
  {
    assert [s][..0] == [];
  }

  /** 2047 letters and a lead byte: the buffer is full and its last code point open. */
  function OpenBuffer(): (s: seq<Byte>)
    ensures |s| == Capacity && s[0] == 0x61 && s == s[..Capacity - 1] + [0xC3]
  {
    seq(Capacity - 1, _ => 0x61) + [0xC3]
  }

  /** After that, any text that starts with a continuation byte comes out wrong. */
  lemma SplitText(enc: Encoding, w: Write)
    requires !enc.Utf8? && Callable(w) && !Accepts(enc, w.text)
    ensures Accepts(enc, OpenBuffer())
    ensures AllCallable([Buffer(OpenBuffer()), w])
    ensures Output(enc, [Buffer(OpenBuffer()), w]) != Converted(enc, Texts([Buffer(OpenBuffer()), w]))
  {
    hide Converted, ConvertAll, Flushed, OpenBuffer, Direct;
    var full := OpenBuffer();
    var ws := [Buffer(full), w];
    assert ws[..1] == [Buffer(full)] && [Buffer(full)][..0] == [];
    assert [] + full == full;
    assert After(enc, []) == Progress([], []);
    assert After(enc, [Buffer(full)]) == Progress([], full);
    assert After(enc, ws) == Apply(enc, Progress([], full), w);
    assert Texts([]) == [] && Texts([Buffer(full)]) == [] + full;
    assert Texts(ws) == full + w.text;
    FullBuffer(enc, full, w);
    LeadStraddles(full[..Capacity - 1], 0xC3, w.text);
    SplitIff(enc, full, w.text);
  }

  /** The output is right after w, whatever allowed texts came before. */
  ghost predicate AlwaysRight(enc: Encoding, w: Write)
    requires Callable(w)
  {
    forall ws :: AllCallable(ws + [w]) && (forall i :: 0 <= i < |ws| ==> Accepts(enc, ws[i].text)) ==>
      Output(enc, ws + [w]) == Converted(enc, Texts(ws + [w]))
  }

  /** A write is right after every history of texts that start at a code point exactly when its own text starts at one. */
  lemma RightIff(enc: Encoding, w: Write)
    requires Callable(w)
    ensures AlwaysRight(enc, w) <==> Accepts(enc, w.text)
  {
    hide Output, Converted, Texts;
    if Accepts(enc, w.text) {
      forall ws | AllCallable(ws + [w]) && forall i :: 0 <= i < |ws| ==> Accepts(enc, ws[i].text)
        ensures Output(enc, ws + [w]) == Converted(enc, Texts(ws + [w]))
      {
        OutputFaithful(enc, ws + [w]);
      }
    } else {
      SplitText(enc, w);
      assert [Buffer(OpenBuffer())] + [w] == [Buffer(OpenBuffer()), w];
    }
  }

  // ----- the writer itself

  class Writer {
    const buffer: array<Byte>
    const scratch: array<Byte>
    const encoding: Encoding
    const littleEndian: bool
    var bufsize: nat
    var sink: seq<Byte>
    /** The chunks already sent, before conversion. */
    ghost var sent: seq<seq<Byte>>

    ghost predicate Shape()
      reads this
    {
      buffer != scratch && buffer.Length == Capacity && scratch.Length == 4 * Capacity && bufsize <= Capacity
    }

    ghost function State(): Progress
      requires Shape()
      reads this, buffer
    {
      Progress(sent, buffer[..bufsize])
    }

    ghost predicate Valid()
      reads this, buffer
    {
      Shape() && sink == ConvertAll(encoding, sent)
    }

    constructor (encoding: Encoding, littleEndian: bool)
      ensures Valid() && State() == Progress([], []) && this.encoding == encoding
      ensures fresh(buffer) && fresh(scratch)
    {
      this.encoding := encoding;
      this.littleEndian := littleEndian;
      buffer := new Byte[Capacity](_ => 0);
      scratch := new Byte[4 * Capacity](_ => 0);
      bufsize := 0;
      sink := [];
      sent := [];
    }

    /** Send one chunk; what is converted goes through the scratch buffer, which it never overruns. */
    method FlushChunk(data: seq<Byte>)
      requires Valid() && (encoding.Utf8? || |data| <= Capacity)
      modifies this`sink, this`sent, scratch
      ensures Valid() && sent == if data == [] then old(sent) else old(sent) + [data]
    {
      hide Converted, ConvertAll;
      if |data| == 0 {
        return;
      }
      ConvertMore(encoding, sent, data);
      if encoding == Utf8 {
        // native encoding: nothing to convert
        ConvertedNative(data);
        sink := sink + data;
      } else {
        var address: nat := *;
        var result := ConvertBufferOutput(encoding, data, address, littleEndian);
        Store(scratch, 0, result);
        assert scratch[..|result|] == result;
        sink := sink + scratch[..|result|];
      }
      sent := sent + [data];
    }

    /** Nothing stays behind in the buffer. */
    method Flush()
      requires Valid()
      modifies this, scratch
      ensures Valid() && State() == Flushed(old(State())) && Text(State()) == Text(old(State()))
      ensures Faithful(encoding, old(State())) ==> sink == Converted(encoding, Text(State()))
    {
      hide ConvertAll, Converted, Cuts;
      FlushedText(State());
      if Faithful(encoding, State()) {
        FlushedFaithful(encoding, State());
        assert Concat(Flushed(State()).sent) + [] == Concat(Flushed(State()).sent);
      }
      FlushChunk(buffer[..bufsize]);
      bufsize := 0;
      assert buffer[..bufsize] == [];
    }

    method CopyIn(data: seq<Byte>)
      requires Valid() && bufsize + |data| <= Capacity
      modifies this`bufsize, buffer
      ensures Valid() && State() == old(State()).(pending := old(State().pending) + data)
    {
      hide ConvertAll;
      Store(buffer, bufsize, data);
      bufsize := bufsize + |data|;
    }

    /** Convert a long string in chunks; the last part stays in the buffer. */
    method WriteDirect(data: seq<Byte>)
      requires Valid()
      modifies this, buffer, scratch
      ensures Valid() && State() == Direct(encoding, old(State()), data)
    {
      hide ConvertAll, ValidLength, Flushed, Faithful, Text;
      FlushedText(State());
      Flush();
      var rest := data;
      if |data| > Capacity {
        if encoding == Utf8 {
          // native encoding: no need for chunks
          FlushChunk(data);
          return;
        }
        while |rest| > Capacity
          invariant Valid() && bufsize == 0
          invariant InChunks(sent, rest) == Direct(encoding, old(State()), data)
          decreases |rest|
        {
          var n := GetValidLength(rest[..Capacity]);
          assert rest[..Capacity][..n] == rest[..n];
          FlushChunk(rest[..n]);
          rest := rest[n..];
        }
      }
      CopyIn(rest);
      assert [] + rest == rest;
    }

    method WriteBuffer(data: seq<Byte>)
      requires Valid()
      modifies this, buffer, scratch
      ensures Valid() && State() == Apply(encoding, old(State()), Buffer(data))
      ensures Text(State()) == Text(old(State())) + data
      ensures Faithful(encoding, old(State())) && Accepts(encoding, data) ==> Faithful(encoding, State())
    {
      hide ConvertAll, Direct, Faithful, Text, Accepts;
      ApplyText(encoding, State(), Buffer(data));
      if Faithful(encoding, State()) && Accepts(encoding, data) {
        ApplyFaithful(encoding, State(), Buffer(data));
      }
      if bufsize + |data| <= Capacity {
        CopyIn(data);
      } else {
        WriteDirect(data);
      }
    }

    /** The characters that fit go behind the buffered ones, which stay as they were. */
    method CopyFitting(data: seq<Byte>) returns (k: nat)
      requires Shape()
      modifies buffer
      ensures k == Room(old(State()), data)
      ensures bufsize + k <= Capacity && buffer[..bufsize + k] == old(buffer[..bufsize]) + data[..k]
    {
      var offset := bufsize;
      k := 0;
      while k < |data| && offset < Capacity
        invariant 0 <= k <= |data| && offset == bufsize + k <= Capacity
        invariant buffer[..offset] == old(buffer[..bufsize]) + data[..k]
      {
        buffer[offset] := data[k];
        assert buffer[..offset + 1] == buffer[..offset] + [data[k]];
        offset, k := offset + 1, k + 1;
      }
    }

    /** Copy what fits; on overflow take back a split code point before sending the rest. */
    method WriteString(data: seq<Byte>)
      requires Valid()
      modifies this, buffer, scratch
      ensures Valid() && State() == Apply(encoding, old(State()), String(data))
      ensures Text(State()) == Text(old(State())) + data
      ensures Faithful(encoding, old(State())) && Accepts(encoding, data) ==> Faithful(encoding, State())
    {
      hide ConvertAll, Direct, ValidLength, Faithful, Text, Accepts;
      ApplyText(encoding, State(), String(data));
      if Faithful(encoding, State()) && Accepts(encoding, data) {
        ApplyFaithful(encoding, State(), String(data));
      }
      ghost var pending := buffer[..bufsize];
      var k := CopyFitting(data);
      if bufsize + k < Capacity {
        bufsize := bufsize + k;
        assert data[..k] == data;
      } else {
        // the last code point may have been cut
        var n := GetValidLength(data[..k]);
        ghost var copied := buffer[..bufsize + k];
        bufsize := bufsize + n;
        assert buffer[..bufsize] == copied[..bufsize] == pending + data[..n];
        WriteDirect(data[n..]);
      }
    }

    /** Up to six bytes at once. */
    method WriteFew(d: seq<Byte>)
      requires Valid() && 1 <= |d| <= 6
      modifies this, buffer, scratch
      ensures Valid() && State() == Apply(encoding, old(State()), Few(d))
      ensures Text(State()) == Text(old(State())) + d
      ensures Faithful(encoding, old(State())) && Accepts(encoding, d) ==> Faithful(encoding, State())
    {
      hide ConvertAll, Faithful, Text, Accepts;
      ApplyText(encoding, State(), Few(d));
      if Faithful(encoding, State()) && Accepts(encoding, d) {
        ApplyFaithful(encoding, State(), Few(d));
      }
      if bufsize > Capacity - |d| {
        Flush();
      }
      CopyIn(d);
    }
  }

  /** Any writes, then the final flush: the sink holds the chunks' conversions; and for texts that start at a code
      point that is the conversion of their concatenation. */
  method Run(enc: Encoding, littleEndian: bool, ws: seq<Write>) returns (sink: seq<Byte>)
    requires AllCallable(ws)
    ensures sink == Output(enc, ws)
    ensures (forall i :: 0 <= i < |ws| ==> Accepts(enc, ws[i].text)) ==> sink == Converted(enc, Texts(ws))
  {
    hide Converted, ConvertAll, Apply, Accepts;
    var writer := new Writer(enc, littleEndian);
    var i := 0;
    while i < |ws|
      invariant 0 <= i <= |ws|
      invariant fresh(writer) && fresh(writer.buffer) && fresh(writer.scratch)
      invariant writer.Valid() && writer.encoding == enc && writer.State() == After(enc, ws[..i])
    {
      assert ws[..i + 1][..i] == ws[..i];
      assert Callable(ws[i]);
      match ws[i] {
        case String(text) => writer.WriteString(text);
        case Buffer(text) => writer.WriteBuffer(text);
        case Few(text) => writer.WriteFew(text);
      }
      i := i + 1;
    }
    assert ws[..i] == ws;
    writer.Flush();
    sink := writer.sink;
    if forall i :: 0 <= i < |ws| ==> Accepts(enc, ws[i].text) {
      OutputFaithful(enc, ws);
    }
  }
}
