/** Whole runs of document edits. */
module DomRuns {
  import opened Sequences
  import opened DomTree
  import opened Dom
  import opened DomDocument

  /** An edit on nodes named by the order they were made in; 0 is the document node. */
  datatype Edit =
    | NewLast(self: nat, kind: Kind) | NewFirst(self: nat, kind: Kind)
    | NewAfter(self: nat, kind: Kind, at: nat) | NewBefore(self: nat, kind: Kind, at: nat)
    | MoveLast(self: nat, moved: nat) | MoveFirst(self: nat, moved: nat)
    | MoveAfter(self: nat, moved: nat, at: nat) | MoveBefore(self: nat, moved: nat, at: nat)
    | Remove(self: nat, at: nat)

  /** The handle a caller still holds: null for a node never made or already freed. */
  function Handle(made: seq<Node>, alive: set<Node>, i: nat): (x: Node?)
    ensures x != null ==> x in alive
  {
    if i < |made| && made[i] in alive then made[i] else null
  }

  method Make(doc: Document, made: seq<Node>, alive: set<Node>, e: Edit) returns (r: Node?)
    requires doc.Valid() && alive == doc.tree.kids.Keys && (e.NewLast? || e.NewFirst? || e.NewAfter? || e.NewBefore?)
    modifies doc`tree, doc.tree.kids.Keys
    ensures doc.Valid() && (r != null ==> fresh(r))
    ensures doc.tree.kids.Keys == if r == null then alive else alive + {r}
  {
    hide Inserted, Sits;
    var self := Handle(made, alive, e.self);
    match e {
      case NewLast(_, kind) => r := doc.AppendChild(self, kind);
      case NewFirst(_, kind) => r := doc.PrependChild(self, kind);
      case NewAfter(_, kind, at) => r := doc.InsertChildAfter(self, kind, Handle(made, alive, at));
      case NewBefore(_, kind, at) => r := doc.InsertChildBefore(self, kind, Handle(made, alive, at));
    }
    if r != null {
      InsertedKeys(alive, self, r);
    }
  }

  lemma InsertedKeys(alive: set<Node>, self: Node, r: Node)
    ensures forall kids: map<Node, seq<Node>>, spot ::
              kids.Keys == alive && self in kids && Sits(spot, kids[self]) ==>
                Inserted(kids, self, r, spot).Keys == alive + {r}
  {
  }

  method Shift(doc: Document, made: seq<Node>, alive: set<Node>, e: Edit)
    requires doc.Valid() && alive == doc.tree.kids.Keys && (e.MoveLast? || e.MoveFirst? || e.MoveAfter? || e.MoveBefore?)
    modifies doc`tree, doc.tree.kids.Keys
    ensures doc.Valid() && doc.tree.kids.Keys == alive
  {
    hide Relinked, SitsDetached;
    var self, moved := Handle(made, alive, e.self), Handle(made, alive, e.moved);
    var r: Node?;
    match e {
      case MoveLast(_, _) => r := doc.AppendMove(self, moved);
      case MoveFirst(_, _) => r := doc.PrependMove(self, moved);
      case MoveAfter(_, _, at) => r := doc.InsertMoveAfter(self, moved, Handle(made, alive, at));
      case MoveBefore(_, _, at) => r := doc.InsertMoveBefore(self, moved, Handle(made, alive, at));
    }
  }

  method Delete(doc: Document, made: seq<Node>, alive: set<Node>, e: Edit) returns (gone: seq<Node>)
    requires doc.Valid() && alive == doc.tree.kids.Keys && e.Remove?
    modifies doc`tree, doc.tree.kids.Keys
    ensures doc.Valid() && doc.tree.kids.Keys == alive - Elems(gone)
    ensures NoDup(gone) && Elems(gone) <= alive
  {
    hide RemovedOne, Forest, Below, NoDup;
    ghost var t := doc.tree;
    NoDupEmpty<Node>();
    var ok, freed := doc.RemoveChild(Handle(made, alive, e.self), Handle(made, alive, e.at));
    gone := freed;
    if ok {
      ParentStays(t, doc.root, Handle(made, alive, e.self), Handle(made, alive, e.at));
    }
  }

  /** The parent of a removed node is not below it. */
  lemma ParentStays(t: Tree<Node>, root: Node, self: Node?, n: Node?)
    requires Forest(t, {root}) && self != null && n != null && self in t.kids && n in t.kids[self]
    ensures self !in Subtree(t, {root}, n) && Subtree(t, {root}, n) <= t.kids.Keys
  {
    assert t.up[n] == self;
    NotAboveParent(t, {root}, n);
  }

  /** Nothing is made or freed twice, and what is alive was made and not freed. */
  ghost predicate Ledger(made: seq<Node>, gone: seq<Node>, alive: set<Node>) {
    NoDup(made) && NoDup(gone) && Elems(gone) <= Elems(made) && alive == Elems(made) - Elems(gone)
  }

  lemma LedgerFree(made: seq<Node>, gone: seq<Node>, alive: set<Node>, freed: seq<Node>)
    requires Ledger(made, gone, alive) && NoDup(freed) && Elems(freed) <= alive
    ensures Ledger(made, gone + freed, alive - Elems(freed))
  {
    hide NoDup;
    NoDupJoin(gone, freed);
  }

  lemma LedgerMake(made: seq<Node>, gone: seq<Node>, alive: set<Node>, r: Node)
    requires Ledger(made, gone, alive) && r !in made
    ensures Ledger(made + [r], gone, alive + {r})
  {
    hide NoDup;
    NoDupOne(r);
    NoDupJoin(made, [r]);
  }

  method EditOnce(doc: Document, made: seq<Node>, gone: seq<Node>, alive: set<Node>, e: Edit)
    returns (made': seq<Node>, gone': seq<Node>, alive': set<Node>)
    requires doc.Valid() && alive == doc.tree.kids.Keys && Ledger(made, gone, alive)
    modifies doc`tree, doc.tree.kids.Keys
    ensures doc.Valid() && alive' == doc.tree.kids.Keys && Ledger(made', gone', alive')
    ensures made <= made' && forall x :: x in made' ==> x in made || fresh(x)
  {
    hide Ledger;
    made', gone', alive' := made, gone, alive;
    if e.Remove? {
      var freed := Delete(doc, made, alive, e);
      LedgerFree(made, gone, alive, freed);
      gone', alive' := gone + freed, alive - Elems(freed);
    } else if e.MoveLast? || e.MoveFirst? || e.MoveAfter? || e.MoveBefore? {
      Shift(doc, made, alive, e);
    } else {
      var r := Make(doc, made, alive, e);
      if r != null {
        LedgerMake(made, gone, alive, r);
        made', alive' := made + [r], alive + {r};
      }
    }
  }

  /** Any edits, from an empty document: what is left is one faithfully linked tree of exactly the nodes made and not
      freed, no node is made or freed twice, and every node stands where its kind may stand. */
  method RunEdits(edits: seq<Edit>) returns (doc: Document, made: seq<Node>, gone: seq<Node>)
    ensures doc.Valid() && made != [] && made[0] == doc.root
    ensures doc.tree.kids.Keys == Elems(made) - Elems(gone)
    ensures Placed(doc.tree)
    ensures NoDup(made) && NoDup(gone) && Elems(gone) <= Elems(made)
  {
    doc := new Document();
    made, gone := [doc.root], [];
    var alive := {doc.root};
    NoDupOne(doc.root);
    var i := 0;
    while i < |edits|
      invariant 0 <= i <= |edits| && fresh(doc) && doc.Valid() && made != [] && made[0] == doc.root
      invariant alive == doc.tree.kids.Keys && Ledger(made, gone, alive)
      invariant forall x :: x in made ==> fresh(x)
    {
      Alive(made, gone, alive);
      made, gone, alive := EditOnce(doc, made, gone, alive, edits[i]);
      i := i + 1;
    }
  }

  lemma Alive(made: seq<Node>, gone: seq<Node>, alive: set<Node>)
    requires Ledger(made, gone, alive)
    ensures forall x :: x in alive ==> x in made
  {
  }
}
