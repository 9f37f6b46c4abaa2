/** Whole runs of allocations and frees. */
module AllocatorRuns {
  import opened Sequences
  import opened PageAllocator

  /** A block in the caller's hands; text marks a string. */
  datatype Held = Held(page: Page, block: Block, text: bool)

  /** Take memory, take a string, or give back the k-th block still held. */
  datatype Request = Take(size: nat) | TakeString(length: nat) | Give(k: nat)

  /** The live blocks of each page, and the offsets where string headers stand. */
  datatype Books = Books(live: map<Page, seq<Block>>, marks: map<Page, set<nat>>)

  ghost function BooksOf(a: Allocator): Books
    reads a, a.pages
  {
    Books(map p | p in a.pages :: p.live, map p | p in a.pages :: p.headers.Keys)
  }

  predicate Holds(held: seq<Held>, p: Page, b: Block) {
    exists i :: 0 <= i < |held| && held[i].page == p && held[i].block == b
  }

  ghost predicate Owned(books: Books, h: Held) {
    && h.page in books.live && h.block in books.live[h.page]
    && (h.text ==> h.page in books.marks && h.block.offset in books.marks[h.page])
  }

  /** The live blocks are exactly those handed out and not given back, each held once. */
  ghost predicate Ledger(books: Books, held: seq<Held>) {
    && (forall i :: 0 <= i < |held| ==> Owned(books, held[i]))
    && (forall i, j :: 0 <= i < j < |held| ==> held[i].page != held[j].page || held[i].block != held[j].block)
    && (forall p, b :: p in books.live && b in books.live[p] ==> Holds(held, p, b))
  }

  // ----- taking

  /** One block more, in one page; elsewhere nothing changes, and no header of a held string is lost. */
  ghost predicate Takes(was: Books, now: Books, h: Held) {
    && h.page in now.live && now.live == was.live[h.page := now.live[h.page]]
    && now.live[h.page] == (if h.page in was.live then was.live[h.page] else []) + [h.block]
    && (h.page in was.live ==> h.block !in was.live[h.page])
    && (h.text ==> h.page in now.marks && h.block.offset in now.marks[h.page])
    && (forall p :: p in was.marks ==> p in now.marks && was.marks[p] - (if p == h.page then {h.block.offset} else {}) <= now.marks[p])
    && (h.page in was.live ==> forall b :: b in was.live[h.page] ==> b.offset != h.block.offset)
  }

  lemma TakeLedger(was: Books, now: Books, held: seq<Held>, h: Held)
    requires Ledger(was, held) && Takes(was, now, h)
    ensures Ledger(now, held + [h])
  {
    var more := held + [h];
    forall i | 0 <= i < |more|
      ensures Owned(now, more[i])
    {
      if i < |held| {
        assert Owned(was, held[i]);
      }
    }
    forall i, j | 0 <= i < j < |more|
      ensures more[i].page != more[j].page || more[i].block != more[j].block
    {
      if j == |held| {
        assert Owned(was, held[i]);
      }
    }
    forall p, b | p in now.live && b in now.live[p]
      ensures Holds(more, p, b)
    {
      if p == h.page && b == h.block {
        assert more[|held|].page == p;
      } else {
        assert p in was.live && b in was.live[p];
        var i :| 0 <= i < |held| && held[i].page == p && held[i].block == b;
        assert more[i].page == p && more[i].block == b;
      }
    }
  }

  // ----- giving back

  /** One block less, in one page, which goes with it if that was its last. */
  ghost predicate Gives(was: Books, now: Books, h: Held) {
    && h.page in was.live && h.block in was.live[h.page]
    && (forall b :: b in was.live[h.page] && b != h.block ==> h.page in now.live && b in now.live[h.page])
    && (h.page in now.live ==> forall b :: b in now.live[h.page] ==> b in was.live[h.page] && b != h.block)
    && (forall p :: p in was.live && p != h.page ==> p in now.live && now.live[p] == was.live[p])
    && (forall p :: p in now.live ==> p in was.live && p in now.marks && (p in was.marks ==> was.marks[p] <= now.marks[p]))
  }

  lemma GiveLedger(was: Books, now: Books, held: seq<Held>, k: nat)
    requires k < |held| && Ledger(was, held) && Gives(was, now, held[k])
    ensures Ledger(now, Without(held, k))
  {
    hide Without, Gives, Owned, Holds;
    var less := Without(held, k);
    WithoutAt(held, k);
    forall i | 0 <= i < |less|
      ensures Owned(now, less[i])
    {
      WithoutIndex(held, k, i);
      GiveOwned(was, now, held, k, if i < k then i else i + 1);
    }
    forall i, j | 0 <= i < j < |less|
      ensures less[i].page != less[j].page || less[i].block != less[j].block
    {
      WithoutIndex(held, k, i);
      WithoutIndex(held, k, j);
    }
    forall p, b | p in now.live && b in now.live[p]
      ensures Holds(less, p, b)
    {
      GiveHeld(was, now, held, k, p, b);
    }
  }

  lemma GiveOwned(was: Books, now: Books, held: seq<Held>, k: nat, j: nat)
    requires k < |held| && j < |held| && j != k && Ledger(was, held) && Gives(was, now, held[k])
    ensures Owned(now, held[j])
  {
    assert Owned(was, held[j]);
    assert held[j].page != held[k].page || held[j].block != held[k].block;
  }

  lemma GiveHeld(was: Books, now: Books, held: seq<Held>, k: nat, p: Page, b: Block)
    requires k < |held| && Ledger(was, held) && Gives(was, now, held[k]) && p in now.live && b in now.live[p]
    ensures Holds(Without(held, k), p, b)
  {
    hide Without, Owned;
    WithoutAt(held, k);
    assert p in was.live && b in was.live[p];
    assert Holds(held, p, b);
    var j :| 0 <= j < |held| && held[j].page == p && held[j].block == b;
    assert j != k;
    WithoutIndex(held, k, if j < k then j else j - 1);
  }

  // ----- the requests on an allocator

  /** The newest block starts where no other live block does. */
  lemma LastApart(live: seq<Block>, b: Block, busy: nat, freed: nat, capacity: nat)
    requires Sound(live + [b], busy, freed, capacity)
    ensures forall c :: c in live ==> c.offset != b.offset && c != b
  {
    var all := live + [b];
    forall c | c in live
      ensures c.offset != b.offset
    {
      var i := Place(live, c);
      assert all[i] == c && all[|live|] == b && c in all;
      assert all[i].End() <= all[|live|].offset;
    }
  }

  lemma PagesWith(s: seq<Page>, i: nat, x: Page)
    requires i <= |s|
    ensures forall p :: p in With(s, i, x) <==> p in s || p == x
  {
    WithAt(s, i, x);
    forall p | p in s
      ensures p in With(s, i, x)
    {
      var k := Place(s, p);
      assert With(s, i, x)[if k < i then k else k + 1] == p;
    }
    assert With(s, i, x)[i] == x;
  }

  lemma PageSound(a: Allocator, p: Page)
    requires a.Valid() && p in a.pages && p != a.sentinel
    ensures Sound(p.live, a.Busy(p), p.freedSize, p.capacity)
  {
    hide Sound, NoDup, Chain, HeadersOk;
    assert a.PageOk(p);
  }

  /** An allocation, seen in the books. */
  lemma Taken(was: Books, now: Books, h: Held)
    requires was.live.Keys == was.marks.Keys && now.live.Keys == now.marks.Keys == was.live.Keys + {h.page}
    requires forall p :: p in was.live && p != h.page ==> now.live[p] == was.live[p] && now.marks[p] == was.marks[p]
    requires now.live[h.page] == (if h.page in was.live then was.live[h.page] else []) + [h.block]
    requires h.page in was.live ==> was.marks[h.page] - {h.block.offset} <= now.marks[h.page]
    requires h.page in was.live ==> forall b :: b in was.live[h.page] ==> b != h.block && b.offset != h.block.offset
    requires h.text ==> h.block.offset in now.marks[h.page]
    ensures Takes(was, now, h)
  {
    assert now.live == was.live[h.page := now.live[h.page]];
  }

  method TakeMemory(a: Allocator, size: nat) returns (h: Held)
    requires a.Valid() && 0 < size && size % 8 == 0 && (a.root == a.sentinel ==> size <= LargeThreshold)
    modifies a, a.pages
    ensures a.Valid() && h.block.size == size && !h.text && Takes(old(BooksOf(a)), BooksOf(a), h)
    ensures forall p :: p in a.pages ==> p in old(a.pages) || fresh(p)
  {
    hide Sound, With, Takes, Allocator.Valid;
    TopListed(a);
    ghost var pages := a.pages;
    ghost var was := BooksOf(a);
    var page, offset := a.AllocateMemory(size);
    h := Held(page, Block(offset, size), false);
    ghost var now := BooksOf(a);
    if page in pages {
      PageSound(a, page);
      LastApart(old(page.live), h.block, a.Busy(page), page.freedSize, page.capacity);
    } else {
      PagesWith(pages, |pages| - (if size <= LargeThreshold then 0 else 1), page);
      assert now.live[page] == [] + [h.block];
    }
    assert now.live.Keys == was.live.Keys + {page} && now.marks.Keys == now.live.Keys;
    Taken(was, now, h);
  }

  lemma TopListed(a: Allocator)
    requires a.Valid()
    ensures a.pages != [] && a.root in a.pages && a.sentinel in a.pages && a.sentinel.live == []
    ensures a.root != a.sentinel ==> |a.pages| >= 2
  {
    hide Sound, NoDup, Chain, HeadersOk;
  }

  method TakeText(a: Allocator, length: nat) returns (h: Held)
    requires a.Valid() && (a.root == a.sentinel ==> Round8(4 + length) <= LargeThreshold)
    modifies a, a.pages
    ensures a.Valid() && h.block.size == Round8(4 + length) && h.text && Takes(old(BooksOf(a)), BooksOf(a), h)
    ensures forall p :: p in a.pages ==> p in old(a.pages) || fresh(p)
  {
    hide Sound, Takes, Allocator.Valid, Round8;
    TopListed(a);
    ghost var pages := a.pages;
    ghost var was := BooksOf(a);
    var page, offset := a.AllocateString(length);
    h := Held(page, Block(offset, Round8(4 + length)), true);
    ghost var now := BooksOf(a);
    TopListed(a);
    if page in pages {
      PageSound(a, page);
      LastApart(old(page.live), h.block, a.Busy(page), page.freedSize, page.capacity);
    } else {
      assert now.live[page] == [] + [h.block];
    }
    assert now.live.Keys == was.live.Keys + {page} && now.marks.Keys == now.live.Keys;
    Taken(was, now, h);
  }

  /** A free, seen in the books: rest are the page's other blocks. */
  lemma Given(was: Books, now: Books, h: Held, rest: seq<Block>, released: bool)
    requires was.live.Keys == was.marks.Keys && now.live.Keys == now.marks.Keys
    requires h.page in was.live && h.block in was.live[h.page] && released == (h.page !in now.live)
    requires now.live.Keys == if released then was.live.Keys - {h.page} else was.live.Keys
    requires forall p :: p in was.live && p != h.page ==> now.live[p] == was.live[p] && now.marks[p] == was.marks[p]
    requires forall b :: b in rest <==> b in was.live[h.page] && b != h.block
    requires if released then rest == [] else now.live[h.page] == rest && now.marks[h.page] == was.marks[h.page]
    ensures Gives(was, now, h)
  {
  }

  lemma RemovedBlocks(live: seq<Block>, b: Block, busy: nat, freed: nat, capacity: nat)
    requires Sound(live, busy, freed, capacity) && b in live
    ensures forall c :: c in Removed(live, b) <==> c in live && c != b
  {
    forall i, j | 0 <= i < j < |live|
      ensures live[i] != live[j]
    {
      assert live[i] in live && live[i].End() <= live[j].offset;
    }
    WithoutMembers(live, Place(live, b));
  }

  lemma RemovedPages(a: Allocator, p: Page)
    requires a.Valid() && p in a.pages
    ensures Elems(Removed(a.pages, p)) == Elems(a.pages) - {p}
  {
    hide Sound, Chain, HeadersOk;
    var s, k := a.pages, Place(a.pages, p);
    var r := Removed(s, p);
    WithoutAt(s, k);
    forall q | q in Elems(s) - {p}
      ensures q in r
    {
      var j := Place(s, q);
      assert r[if j < k then j else j - 1] == q;
    }
    forall q | q in Elems(r)
      ensures q in Elems(s) - {p}
    {
      var j := Place(r, q);
      assert q == s[if j < k then j else j + 1];
    }
  }

  method GiveBack(a: Allocator, h: Held)
    requires a.Valid() && Owned(BooksOf(a), h)
    modifies a, a.pages
    ensures a.Valid() && Gives(old(BooksOf(a)), BooksOf(a), h)
    ensures forall p :: p in a.pages ==> p in old(a.pages)
  {
    hide Sound, Gives, Removed, Allocator.Valid;
    TopListed(a);
    PageSound(a, h.page);
    RemovedBlocks(h.page.live, h.block, a.Busy(h.page), h.page.freedSize, h.page.capacity);
    RemovedPages(a, h.page);
    ghost var pages, left := a.pages, Removed(a.pages, h.page);
    ghost var was := BooksOf(a);
    var released: bool;
    if h.text {
      released := a.DeallocateString(h.page, h.block.offset, h.block.size);
    } else {
      released := a.DeallocateMemory(h.page, h.block.offset, h.block.size);
    }
    assert a.pages == if released then left else pages;
    ghost var now := BooksOf(a);
    assert was.live.Keys == Elems(pages) && now.live.Keys == Elems(a.pages);
    assert forall p :: p in a.pages ==> p in Elems(a.pages);
    assert now.live.Keys == if released then was.live.Keys - {h.page} else was.live.Keys;
    assert now.marks.Keys == now.live.Keys;
    Given(was, now, h, h.page.live, released);
  }

  /** Any requests, from a new allocator; one the allocator does not take (a size that is not a multiple of eight, a
      large first block, an index not held) is left out. The live blocks are then exactly the blocks held. */
  method RunRequests(requests: seq<Request>) returns (a: Allocator, held: seq<Held>)
    ensures a.Valid() && Ledger(BooksOf(a), held)
  {
    hide Sound, Takes, Gives, Round8, Owned;
    a := new Allocator();
    held := [];
    var i := 0;
    Started(a);
    while i < |requests|
      invariant 0 <= i <= |requests| && fresh(a) && a.Valid() && Ledger(BooksOf(a), held)
      invariant forall p :: p in a.pages ==> fresh(p)
    {
      assert forall k :: 0 <= k < |a.pages| ==> a.pages[k] in a.pages;
      held := Serve(a, held, requests[i]);
      i := i + 1;
    }
  }

  lemma Started(a: Allocator)
    requires a.Valid() && a.pages == [a.sentinel]
    ensures Ledger(BooksOf(a), [])
  {
  }

  method Serve(a: Allocator, held: seq<Held>, r: Request) returns (held': seq<Held>)
    requires a.Valid() && Ledger(BooksOf(a), held)
    modifies a, a.pages
    ensures a.Valid() && Ledger(BooksOf(a), held')
    ensures forall p :: p in a.pages ==> p in old(a.pages) || fresh(p)
  {
    hide Sound, Takes, Gives, Round8, Allocator.Valid, Ledger;
    held' := held;
    ghost var was := BooksOf(a);
    match r {
      case Take(size) =>
        if 0 < size && size % 8 == 0 && (a.root == a.sentinel ==> size <= LargeThreshold) {
          var h := TakeMemory(a, size);
          TakeLedger(was, BooksOf(a), held, h);
          held' := held + [h];
        }
      case TakeString(length) =>
        if a.root == a.sentinel ==> Round8(4 + length) <= LargeThreshold {
          var h := TakeText(a, length);
          TakeLedger(was, BooksOf(a), held, h);
          held' := held + [h];
        }
      case Give(k) =>
        if k < |held| {
          HeldOwned(was, held, k);
          GiveBack(a, held[k]);
          GiveLedger(was, BooksOf(a), held, k);
          held' := Without(held, k);
        }
    }
  }

  lemma HeldOwned(books: Books, held: seq<Held>, k: nat)
    requires Ledger(books, held) && k < |held|
    ensures Owned(books, held[k])
  {
  }
}
