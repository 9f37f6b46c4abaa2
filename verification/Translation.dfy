/** XPath translate(): the direct form and the table form it is replaced by. */
module Translation {

  datatype Table = None | Some(table: seq<nat>)

  /** Code stored for a character that must be deleted. */
  const Skip: nat := 128

  /** Index of the first occurrence of c in s, or |s|. */
  function Find(s: string, c: char): (k: nat)
    ensures k <= |s|
    ensures k < |s| ==> s[k] == c
    ensures forall i :: 0 <= i < k ==> s[i] != c
  {
    if s == [] then 0 else if s[0] == c then 0 else 1 + Find(s[1..], c)
  }

  /** One character through the maps: kept, replaced or deleted. */
  function MapChar(c: char, from: string, to: string): string {
    var k := Find(from, c);
    if k == |from| then [c] else if k < |to| then [to[k]] else []
  }

  function Translate(s: string, from: string, to: string): string {
    if s == [] then [] else Translate(s[..|s| - 1], from, to) + MapChar(s[|s| - 1], from, to)
  }

  predicate IsAscii(c: char) {
    c as int < 128
  }

  /** The fill loop of the table: the entry of from[i] is set on its first occurrence only. */
  function Fill(table: seq<nat>, from: string, to: string): Table
    requires |table| == 128
    ensures Fill(table, from, to).Some? ==> |Fill(table, from, to).table| == 128
    decreases from
  {
    if from == [] then Some(table)
    else if !IsAscii(from[0]) || (to != [] && !IsAscii(to[0])) then None
    else
      var fc := from[0] as int;
      var tc := if to == [] then Skip else to[0] as int;
      Fill(if table[fc] == 0 then table[fc := tc] else table, from[1..], if to == [] then [] else to[1..])
  }

  /** Characters without an entry map to themselves. */
  function Complete(table: seq<nat>): seq<nat> {
    seq(|table|, i requires 0 <= i < |table| => if table[i] == 0 then i else table[i])
  }

  function Generate(from: string, to: string): Table {
    match Fill(seq(128, _ => 0), from, to)
    case None => None
    case Some(table) => Some(Complete(table))
  }

  function MapByTable(c: char, table: seq<nat>): string {
    if c as int < 128 && c as int < |table| then
      var code := table[c as int];
      if code < Skip then [code as char] else []
    else [c]
  }

  function TranslateByTable(s: string, table: seq<nat>): string {
    if s == [] then [] else TranslateByTable(s[..|s| - 1], table) + MapByTable(s[|s| - 1], table)
  }

  /** No NUL: what a C string can hold. */
  predicate IsText(s: string) {
    forall i :: 0 <= i < |s| ==> s[i] != '\0'
  }

  type Text = s: string | IsText(s)

  lemma {:induction false} FillEntry(table: seq<nat>, from: string, to: string, c: int)
    requires |table| == 128 && 0 <= c < 128 && IsText(from) && IsText(to)
    requires Fill(table, from, to).Some?
    ensures Fill(table, from, to).table[c] ==
            (if table[c] != 0 then table[c]
             else
               var k := Find(from, c as char);
               if k == |from| then 0 else if k < |to| then to[k] as int else Skip)
    ensures forall k :: 0 <= k < |from| ==> IsAscii(from[k]) && (k < |to| ==> IsAscii(to[k]))
    decreases from
  {
    if from != [] {
      var fc := from[0] as int;
      var tc := if to == [] then Skip else to[0] as int;
      var next := if table[fc] == 0 then table[fc := tc] else table;
      var rest := if to == [] then [] else to[1..];
      FillEntry(next, from[1..], rest, c);
      forall k | 0 <= k < |from|
        ensures IsAscii(from[k]) && (k < |to| ==> IsAscii(to[k]))
      {
        if k > 0 {
          assert from[k] == from[1..][k - 1];
          assert k < |to| ==> to[k] == rest[k - 1];
        }
      }
    }
  }

  lemma MapAgrees(c: char, from: string, to: string)
    requires IsText(from) && IsText(to) && Generate(from, to).Some?
    ensures MapByTable(c, Generate(from, to).table) == MapChar(c, from, to)
  {
    var empty: seq<nat> := seq(128, _ => 0);
    if IsAscii(c) {
      FillEntry(empty, from, to, c as int);
    } else {
      FillEntry(empty, from, to, 0);
      assert Find(from, c) == |from|;
    }
  }

  /** Whenever a table can be built, looking characters up in it is the direct translation. */
  lemma {:induction false} TableAgrees(s: string, from: string, to: string)
    requires IsText(from) && IsText(to) && Generate(from, to).Some?
    ensures TranslateByTable(s, Generate(from, to).table) == Translate(s, from, to)
  {
    if s != [] {
      TableAgrees(s[..|s| - 1], from, to);
      MapAgrees(s[|s| - 1], from, to);
    }
  }

  // ----- in place: the write position never passes the read position

  lemma TranslateStep(s: string, from: string, to: string, n: nat)
    requires n < |s|
    ensures Translate(s[..n + 1], from, to) == Translate(s[..n], from, to) + MapChar(s[n], from, to)
    ensures |MapChar(s[n], from, to)| <= 1
  {
    assert s[..n + 1][..n] == s[..n];
  }

  method TranslateInPlace(buf: array<char>, n: nat, from: string, to: string) returns (write: nat)
    requires n <= buf.Length
    modifies buf
    ensures write <= n && buf[..write] == Translate(old(buf[..n]), from, to)
  {
    hide Translate;
    ghost var s := buf[..n];
    EmptyTranslate(from, to, []);
    var read := 0;
    write := 0;
    while read < n
      invariant 0 <= write <= read <= n
      invariant buf[..write] == Translate(s[..read], from, to)
      invariant forall k :: read <= k < n ==> buf[k] == s[k]
    {
      TranslateStep(s, from, to, read);
      var ch := buf[read];
      var k := Find(from, ch);
      if k == |from| {
        buf[write] := ch;
        write := write + 1;
      } else if k < |to| {
        buf[write] := to[k];
        write := write + 1;
      }
      read := read + 1;
    }
    assert s[..n] == s;
  }

  lemma EmptyTranslate(from: string, to: string, table: seq<nat>)
    ensures Translate([], from, to) == [] && TranslateByTable([], table) == []
  {
  }

  lemma TableStep(s: string, table: seq<nat>, n: nat)
    requires n < |s|
    ensures TranslateByTable(s[..n + 1], table) == TranslateByTable(s[..n], table) + MapByTable(s[n], table)
  {
    assert s[..n + 1][..n] == s[..n];
  }

  method TranslateTableInPlace(buf: array<char>, n: nat, table: seq<nat>) returns (write: nat)
    requires n <= buf.Length && |table| == 128 && forall i :: 0 <= i < 128 ==> table[i] <= Skip
    modifies buf
    ensures write <= n && buf[..write] == TranslateByTable(old(buf[..n]), table)
  {
    hide TranslateByTable;
    ghost var s := buf[..n];
    EmptyTranslate([], [], table);
    var read := 0;
    write := 0;
    while read < n
      invariant 0 <= write <= read <= n
      invariant buf[..write] == TranslateByTable(s[..read], table)
      invariant forall k :: read <= k < n ==> buf[k] == s[k]
    {
      TableStep(s, table, read);
      var ch := buf[read];
      if ch as int < 128 {
        // a skipped character is written and then overwritten
        var code := table[ch as int];
        buf[write] := code as char;
        write := write + (1 - code / 128);
      } else {
        buf[write] := ch;
        write := write + 1;
      }
      read := read + 1;
    }
    assert s[..n] == s;
  }
}
