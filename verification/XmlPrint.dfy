/** Printing a tree raw, and the normal form it has once parsed back. */
module XmlPrint {
  import opened XmlText
  import opened XmlParser

  // ----- printing

  /** Nodes without a name are given one. */
  function Shown(name: string): string {
    if name == [] then ":anonymous" else name
  }

  function PrintAttributes(attrs: seq<Attribute>): string {
    if attrs == [] then []
    else [' '] + Shown(attrs[0].name) + ['=', '"'] + Escape(attrs[0].value, true) + ['"'] + PrintAttributes(attrs[1..])
  }

  /** Where "]]>" first stands, or the end. */
  function SectionEnd(s: string): (k: nat)
    ensures k <= |s| && (k < |s| ==> k + 2 < |s|)
  {
    FindMark(s, 0, "]]", '\0')
  }

  /** A CDATA section cannot hold "]]>": it is cut into several. */
  function CdataText(s: string): string
    decreases |s|
  {
    var k := SectionEnd(s);
    "<![CDATA[" + (if k == |s| then s + "]]" else s[..k + 2] + "]]>" + CdataText(s[k + 2..]))
  }

  /** No "--" in a comment, and no "-" at its end: a space goes between. */
  function CommentText(s: string): string {
    if s == [] then []
    else (if s[0] == '-' && (|s| == 1 || s[1] == '-') then "- " else [s[0]]) + CommentText(s[1..])
  }

  /** No "?>" in an instruction: a space goes between. */
  function PiText(s: string): string {
    if s == [] then [] else if "?>" <= s then "? >" + PiText(s[2..]) else [s[0]] + PiText(s[1..])
  }

  function Spaced(s: string): string {
    if s == [] then [] else [' '] + s
  }

  /** A node other than text, without its last character, which is always '>'. */
  function PrintMarkup(t: Tree): string
    requires !t.Text?
    decreases t, 1
  {
    match t
    case Elem(_, _, _) => PrintOpen(t)
    case Cdata(s) => CdataText(s)
    case Comment(s) => "<!--" + CommentText(s) + "--"
    case Pi(name, value) => "<?" + Shown(name) + Spaced(PiText(value)) + "?"
    case Declaration(name, attrs) => "<?" + Shown(name) + PrintAttributes(attrs) + "?"
    case Doctype(s) => "<!DOCTYPE" + Spaced(s)
  }

  function PrintOpen(t: Tree): string
    requires t.Elem?
    decreases t, 0
  {
    ['<'] + Shown(t.name) + PrintAttributes(t.attrs)
    + (if t.kids == [] then [' ', '/'] else ['>'] + PrintAll(t.kids) + ['<', '/'] + Shown(t.name))
  }

  function PrintAll(ts: seq<Tree>): string
    decreases ts, 0
  {
    if ts == [] then []
    else (if ts[0].Text? then Escape(ts[0].s, false) else PrintMarkup(ts[0]) + ['>']) + PrintAll(ts[1..])
  }

  // ----- what printing and parsing does to a tree

  /** A proper name, or none. */
  predicate Nameable(s: string) {
    s == [] || IsName(s)
  }

  predicate GoodAttributes(attrs: seq<Attribute>) {
    forall i :: 0 <= i < |attrs| ==> Nameable(attrs[i].name) && NoNul(attrs[i].value)
  }

  /** The text of a document type ends where its printed '>' stands. */
  predicate Balanced(s: string) {
    ParseGroup(Spaced(s) + ['>'], 0, '\0') == Skipped([])
  }

  /** Names are proper or missing, no string holds a NUL, and document types are balanced and stand at the top only. */
  predicate Printable(ts: seq<Tree>, top: bool)
    decreases ts, 1
  {
    forall i :: 0 <= i < |ts| ==> PrintableNode(ts[i], top)
  }

  predicate PrintableNode(t: Tree, top: bool)
    decreases t, 0
  {
    match t
    case Elem(name, attrs, kids) => Nameable(name) && GoodAttributes(attrs) && Printable(kids, false)
    case Text(s) => NoNul(s)
    case Cdata(s) => NoNul(s)
    case Comment(s) => NoNul(s)
    case Pi(name, value) => Nameable(name) && NoNul(value)
    case Declaration(name, attrs) => Nameable(name) && GoodAttributes(attrs)
    case Doctype(s) => top && NoNul(s) && Balanced(s)
  }

  predicate Blank(s: string) {
    forall i :: 0 <= i < |s| ==> IsSpace(s[i])
  }

  /** The text of the leading run of text nodes. */
  function LeadingText(ts: seq<Tree>): string {
    if ts == [] || !ts[0].Text? then [] else ts[0].s + LeadingText(ts[1..])
  }

  function AfterText(ts: seq<Tree>): (r: seq<Tree>)
    ensures |r| <= |ts| && (r == [] || !r[0].Text?)
    ensures r == ts[|ts| - |r|..]
  {
    if ts == [] || !ts[0].Text? then ts else AfterText(ts[1..])
  }

  function TextNode(s: string): seq<Tree> {
    if Blank(s) then [] else [Text(Lines(s))]
  }

  function NormalAttributes(attrs: seq<Attribute>): seq<Attribute> {
    seq(|attrs|, i requires 0 <= i < |attrs| => Attribute(Shown(attrs[i].name), TabsToSpaces(attrs[i].value)))
  }

  function CdataNodes(s: string): seq<Tree>
    decreases |s|
  {
    var k := SectionEnd(s);
    if k == |s| then [Cdata(Lines(s))] else [Cdata(Lines(s[..k + 2]))] + CdataNodes(s[k + 2..])
  }

  /** Tabs in values become spaces; neighbouring texts merge; blank text disappears, as do comments, instructions,
      declarations and document types; sections are cut at "]]>"; line ends become LF. */
  function Normal(ts: seq<Tree>): seq<Tree>
    decreases ts, 2
  {
    if ts == [] then []
    else if !ts[0].Text? then NormalNode(ts[0]) + Normal(ts[1..])
    else TextNode(LeadingText(ts)) + Normal(AfterText(ts))
  }

  function NormalNode(t: Tree): seq<Tree>
    requires !t.Text?
    decreases t, 1
  {
    match t
    case Elem(_, _, _) => [NormalElem(t)]
    case Cdata(s) => CdataNodes(s)
    case _ => []
  }

  function NormalElem(t: Tree): (r: Tree)
    requires t.Elem?
    ensures r.Elem?
    decreases t, 0
  {
    Elem(Shown(t.name), NormalAttributes(t.attrs), Normal(t.kids))
  }
}
