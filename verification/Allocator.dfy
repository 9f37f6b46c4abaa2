/** The page allocator: blocks bumped off pages, pages freed when nothing in them is live. */
module PageAllocator {
  import opened Sequences

  const PageSize: nat := 32768
  const LargeThreshold: nat := PageSize / 4
  /** The first size that a 16-bit count of eight-byte units cannot hold. */
  const MaxEncoded: nat := 65536 * 8

  datatype Block = Block(offset: nat, size: nat) {
    function End(): nat {
      offset + size
    }
  }

  function Total(live: seq<Block>): nat {
    if live == [] then 0 else Total(live[..|live| - 1]) + live[|live| - 1].size
  }

  /** One page's account: live blocks lie apart, in order, inside the busy part, and fill what was not freed. */
  ghost predicate Sound(live: seq<Block>, busy: nat, freed: nat, capacity: nat) {
    && freed <= busy <= capacity && busy % 8 == 0 && busy - freed == Total(live)
    && (forall b :: b in live ==> 0 < b.size && b.End() <= busy && b.offset % 8 == 0 && b.size % 8 == 0)
    && Ordered(live)
  }

  ghost predicate Ordered(live: seq<Block>) {
    forall i, j :: 0 <= i < j < |live| ==> live[i].End() <= live[j].offset
  }

  lemma SoundDisjoint(live: seq<Block>, busy: nat, freed: nat, capacity: nat, i: nat, j: nat, byte: nat)
    requires Sound(live, busy, freed, capacity) && i < |live| && j < |live|
    requires live[i].offset <= byte < live[i].End() && live[j].offset <= byte < live[j].End()
    ensures i == j && byte < capacity
  {
    assert live[i] in live;
  }

  lemma SoundEmpty(capacity: nat)
    ensures Sound([], 0, 0, capacity)
  {
  }

  lemma SoundBump(live: seq<Block>, busy: nat, freed: nat, capacity: nat, size: nat)
    requires Sound(live, busy, freed, capacity) && 0 < size && size % 8 == 0 && busy + size <= capacity
    ensures Sound(live + [Block(busy, size)], busy + size, freed, capacity)
  {
    var more := live + [Block(busy, size)];
    assert more[..|more| - 1] == live;
    forall i, j | 0 <= i < j < |more|
      ensures more[i].End() <= more[j].offset
    {
      assert more[i] in live;
    }
  }

  lemma SoundOne(size: nat, capacity: nat)
    requires 0 < size <= capacity && size % 8 == 0
    ensures Sound([Block(0, size)], size, 0, capacity)
  {
    hide Sound;
    SoundEmpty(capacity);
    SoundBump([], 0, 0, capacity, size);
    assert [] + [Block(0, size)] == [Block(0, size)];
  }

  lemma {:induction false} TotalWithout(live: seq<Block>, k: nat)
    requires k < |live|
    ensures Total(Without(live, k)) + live[k].size == Total(live)
  {
    var n := |live| - 1;
    if k == n {
      assert Without(live, k) == live[..n];
    } else {
      TotalWithout(live[..n], k);
      assert Without(live, k) == Without(live[..n], k) + [live[n]];
      assert Without(live, k)[..n - 1] == Without(live[..n], k);
    }
  }

  /** Only an empty page is freed to the brim. */
  lemma TotalZero(live: seq<Block>)
    requires forall b :: b in live ==> 0 < b.size
    ensures Total(live) == 0 <==> live == []
  {
    if live != [] {
      assert live[|live| - 1] in live;
    }
  }

  lemma OrderedWithout(live: seq<Block>, k: nat)
    requires k < |live| && Ordered(live)
    ensures Ordered(Without(live, k)) && forall b :: b in Without(live, k) ==> b in live
  {
    WithoutAt(live, k);
  }

  lemma SoundFree(live: seq<Block>, busy: nat, freed: nat, capacity: nat, k: nat)
    requires Sound(live, busy, freed, capacity) && k < |live|
    ensures Sound(Without(live, k), busy, freed + live[k].size, capacity)
    ensures freed + live[k].size == busy <==> Without(live, k) == []
  {
    hide Without, Ordered, Total;
    TotalWithout(live, k);
    OrderedWithout(live, k);
    assert live[k] in live;
    TotalZero(Without(live, k));
  }

  // ----- string headers

  datatype Header = Header(pageOffset: nat, fullSize: nat)

  function Round8(n: nat): nat {
    (n + 7) / 8 * 8
  }

  /** Both fields are 16 bits wide; a size too large for that is written as 0. */
  function Encoded(b: Block): Header {
    Header(b.offset / 8 % 65536, (if b.size < MaxEncoded then b.size / 8 else 0) % 65536)
  }

  function DecodedSize(h: Header, pageBusy: nat): nat {
    if h.fullSize == 0 then pageBusy else h.fullSize * 8
  }

  /** The header finds the page's start again and gives back the allocated size. */
  lemma DecodeEncoded(b: Block, pageBusy: nat)
    requires b.offset % 8 == 0 && b.size % 8 == 0 && 0 < b.size && b.offset < MaxEncoded
    requires b.size >= MaxEncoded ==> pageBusy == b.size
    ensures Encoded(b).pageOffset * 8 == b.offset
    ensures DecodedSize(Encoded(b), pageBusy) == b.size
  {
  }

  /** Below the bound the size decodes whatever the page says; at or above it only the page can tell. */
  lemma DecodeNeedsPage(b: Block, pageBusy: nat)
    requires b.size % 8 == 0 && 0 < b.size
    ensures DecodedSize(Encoded(b), pageBusy) == b.size <==> b.size < MaxEncoded || pageBusy == b.size
  {
  }

  // ----- pages

  class Page {
    const capacity: nat
    /** Made for one large block. */
    const large: bool
    var prev: Page?
    var next: Page?
    var busySize: nat
    var freedSize: nat
    /** The string headers written in the page's memory, by offset. */
    var headers: map<nat, Header>
    ghost var live: seq<Block>

    constructor (capacity: nat, large: bool)
      ensures this.capacity == capacity && this.large == large
      ensures prev == null && next == null && busySize == 0 && freedSize == 0 && headers == map[] && live == []
    {
      this.capacity, this.large := capacity, large;
      prev, next, busySize, freedSize, headers, live := null, null, 0, 0, map[], [];
    }
  }

  function Nth(s: seq<Page>, i: int): Page? {
    if 0 <= i < |s| then s[i] else null
  }

  ghost predicate ChainAt(s: seq<Page>, i: nat)
    requires i < |s|
    reads s`prev, s`next
  {
    s[i].prev == Nth(s, i - 1) && s[i].next == Nth(s, i + 1)
  }

  ghost predicate Chain(s: seq<Page>)
    reads s`prev, s`next
  {
    forall i :: 0 <= i < |s| ==> ChainAt(s, i)
  }

  method LinkLast(page: Page, top: Page, ghost s: seq<Page>)
    requires Chain(s) && NoDup(s) && s != [] && s[|s| - 1] == top && page !in s && page.next == null
    modifies page`prev, top`next
    ensures Chain(With(s, |s|, page))
  {
    page.prev := top;
    top.next := page;
    WithAt(s, |s|, page);
    ghost var r := With(s, |s|, page);
    hide With;
    forall j | 0 <= j < |r|
      ensures ChainAt(r, j)
    {
      assert j < |s| ==> old(ChainAt(s, j));
    }
  }

  method LinkBeforeLast(page: Page, top: Page, ghost s: seq<Page>)
    requires Chain(s) && NoDup(s) && |s| >= 2 && s[|s| - 1] == top && page !in s
    modifies page`prev, page`next, top`prev, (set y | y in s)`next
    ensures Chain(With(s, |s| - 1, page))
  {
    assert ChainAt(s, |s| - 1);
    page.prev := top.prev;
    page.next := top;
    top.prev.next := page;
    top.prev := page;
    WithAt(s, |s| - 1, page);
    ghost var r := With(s, |s| - 1, page);
    hide With;
    forall j | 0 <= j < |r|
      ensures ChainAt(r, j)
    {
      assert j < |s| - 1 ==> old(ChainAt(s, j));
      assert old(ChainAt(s, |s| - 1));
    }
  }

  method UnlinkPage(page: Page, ghost s: seq<Page>, ghost k: nat)
    requires Chain(s) && NoDup(s) && 0 < k < |s| - 1 && s[k] == page
    modifies (set y | y in s)`next, (set y | y in s)`prev
    ensures Chain(Without(s, k))
  {
    assert ChainAt(s, k);
    page.prev.next := page.next;
    page.next.prev := page.prev;
    WithoutAt(s, k);
    ghost var r := Without(s, k);
    hide Without;
    forall j | 0 <= j < |r|
      ensures ChainAt(r, j)
    {
      assert j < k ==> old(ChainAt(s, j));
      assert k <= j ==> old(ChainAt(s, j + 1));
    }
  }

  // ----- the allocator

  ghost predicate HeadersOk(live: seq<Block>, headers: map<nat, Header>) {
    forall b :: b in live && b.offset in headers ==> headers[b.offset] == Encoded(b)
  }

  /** A large page holds its one block and nothing else, an ordinary one has the standard size. */
  ghost predicate Shape(p: Page)
    reads p
  {
    if p.large then p.live == [Block(0, p.capacity)] && p.busySize == p.capacity
    else p.capacity == PageSize
  }

  class Allocator {
    const sentinel: Page
    /** The top page, whose busy size is kept here and not in the page. */
    var root: Page
    var busySize: nat
    ghost var pages: seq<Page>

    ghost function Busy(p: Page): nat
      reads this, p
    {
      if p == root then busySize else p.busySize
    }

    ghost predicate PageOk(p: Page)
      reads this, p
    {
      && Sound(p.live, Busy(p), p.freedSize, p.capacity) && HeadersOk(p.live, p.headers) && Shape(p)
      && (if p == root then !p.large && (p.live == [] ==> busySize == 0) else p.live != [])
    }

    ghost predicate Valid()
      reads this, pages
    {
      && Chain(pages) && NoDup(pages) && pages != [] && pages[0] == sentinel && pages[|pages| - 1] == root
      && sentinel.live == [] && (root == sentinel ==> busySize == PageSize)
      && forall p :: p in pages && p != sentinel ==> PageOk(p)
    }

    constructor ()
      ensures Valid() && pages == [sentinel] && fresh(sentinel) && root == sentinel
    {
      var page := new Page(0, false);
      page.busySize := PageSize;
      sentinel, root, busySize, pages := page, page, PageSize, [page];
    }

    method AllocateMemory(size: nat) returns (page: Page, offset: nat)
      requires Valid() && 0 < size && size % 8 == 0 && (root == sentinel ==> size <= LargeThreshold)
      modifies this, pages
      ensures Valid() && page in pages && page != sentinel && offset !in page.headers
      ensures page in old(pages) <==> old(busySize) + size <= PageSize
      ensures page in old(pages) ==> pages == old(pages) && page.live == old(page.live) + [Block(offset, size)]
      ensures page in old(pages) ==> page.headers == old(page.headers) - {offset}
      ensures page !in old(pages) ==>
                && fresh(page) && offset == 0 && page.live == [Block(0, size)]
                && pages == With(old(pages), |old(pages)| - (if size <= LargeThreshold then 0 else 1), page)
      ensures forall q :: q in old(pages) && q != page ==> q.live == old(q.live) && q.headers == old(q.headers)
    {
      hide Sound, NoDup, With, PageOk;
      if busySize + size > PageSize {
        page, offset := AllocateMemoryOob(size);
      } else {
        assert root in pages;
        page := root;
        offset := Bump(size);
      }
    }

    /** The next bytes of the top page. */
    method Bump(size: nat) returns (offset: nat)
      requires Valid() && 0 < size && size % 8 == 0 && busySize + size <= PageSize
      modifies this`busySize, root`headers, root`live
      ensures Valid() && root != sentinel && offset !in root.headers
      ensures root.live == old(root.live) + [Block(offset, size)] && root.headers == old(root.headers) - {offset}
    {
      hide Sound, NoDup, Chain, HeadersOk;
      assert root in pages && PageOk(root);
      SizesOf(root.live, busySize, root.freedSize, root.capacity);
      SoundBump(root.live, busySize, root.freedSize, root.capacity, size);
      HeadersBump(root.live, root.headers, Block(busySize, size));
      offset := busySize;
      busySize := busySize + size;
      // the contents of a new block are undefined
      root.headers := root.headers - {offset};
      root.live := root.live + [Block(offset, size)];
      assert PageOk(root);
      forall p | p in pages && p != sentinel && p != root
        ensures PageOk(p)
      {
        assert old(PageOk(p));
      }
    }

    method AllocateMemoryOob(size: nat) returns (page: Page, offset: nat)
      requires Valid() && 0 < size && size % 8 == 0 && (root == sentinel ==> size <= LargeThreshold)
      requires busySize + size > PageSize
      modifies this, pages
      ensures Valid() && fresh(page) && offset == 0 && page.headers == map[] && page.live == [Block(0, size)]
      ensures pages == With(old(pages), |old(pages)| - (if size <= LargeThreshold then 0 else 1), page)
      ensures page in pages && page !in old(pages)
      ensures forall q :: q in old(pages) ==> q.live == old(q.live) && q.headers == old(q.headers)
    {
      hide Sound, NoDup, With, PageOk;
      offset := 0;
      if size <= LargeThreshold {
        page := new Page(PageSize, false);
        PushPage(page, size);
      } else {
        page := new Page(size, true);
        PushLargePage(page);
      }
    }

    /** A new top page takes the old one's place. */
    method PushPage(page: Page, size: nat)
      requires Valid() && page !in pages && !page.large && page.capacity == PageSize
      requires page.prev == null && page.next == null && page.freedSize == 0 && page.headers == map[] && page.live == []
      requires 0 < size <= LargeThreshold && size % 8 == 0 && busySize + size > PageSize
      modifies this, root`busySize, root`next, page
      ensures Valid() && page.live == [Block(0, size)] && page.headers == map[] && page in pages
      ensures pages == With(old(pages), |old(pages)|, page)
    {
      hide Sound, NoDup, With, HeadersOk, Chain, ChainAt;
      assert root in pages && (root != sentinel ==> root.live != []) by {
        assert pages[|pages| - 1] in pages;
        assert root != sentinel ==> PageOk(root);
      }
      HeadersOne(size);
      SoundOne(size, PageSize);
      WithMembers(pages, |pages|, page);
      WithEnds(pages, |pages|, page);
      ghost var was := root;
      root.busySize := busySize;
      LinkLast(page, root, pages);
      pages := With(pages, |pages|, page);
      root := page;
      busySize := size;
      page.busySize := size;
      page.live := [Block(0, size)];
      assert PageOk(page);
      assert was != sentinel ==> PageOk(was) by {
        assert was != sentinel ==> old(PageOk(was));
      }
      forall p | p in pages && p != sentinel
        ensures PageOk(p)
      {
        WithHas(old(pages), |old(pages)|, page, p);
        assert p != page && p != was ==> old(PageOk(p));
      }
      WithHas(old(pages), |old(pages)|, page, page);
    }

    /** A page for one large block goes just below the top, where it can be released. */
    method PushLargePage(page: Page)
      requires Valid() && page !in pages && page.large && 0 < page.capacity && page.capacity % 8 == 0
      requires page.freedSize == 0 && page.headers == map[] && root != sentinel
      modifies this`pages, page, root`prev, (set y | y in pages)`next
      ensures Valid() && page.live == [Block(0, page.capacity)] && page.headers == map[] && page in pages
      ensures pages == With(old(pages), |old(pages)| - 1, page)
    {
      hide Sound, NoDup, With, HeadersOk, Chain, ChainAt;
      HeadersOne(page.capacity);
      SoundOne(page.capacity, page.capacity);
      WithMembers(pages, |pages| - 1, page);
      WithEnds(pages, |pages| - 1, page);
      LinkBeforeLast(page, root, pages);
      pages := With(pages, |pages| - 1, page);
      page.busySize := page.capacity;
      page.live := [Block(0, page.capacity)];
      assert PageOk(page);
      forall p | p in pages && p != sentinel
        ensures PageOk(p)
      {
        WithHas(old(pages), |old(pages)| - 1, page, p);
        assert p != page ==> old(PageOk(p));
      }
      WithHas(old(pages), |old(pages)| - 1, page, page);
    }

    /** A page leaves the list exactly when its last block goes and it is not the top page. */
    method DeallocateMemory(page: Page, offset: nat, size: nat) returns (released: bool)
      requires Valid() && page in pages && Block(offset, size) in page.live
      modifies this, page, (set y | y in pages)`next, (set y | y in pages)`prev
      ensures Valid() && root == old(root)
      ensures page.live == Removed(old(page.live), Block(offset, size)) && page.headers == old(page.headers)
      ensures released <==> page != root && page.live == []
      ensures pages == if released then Removed(old(pages), page) else old(pages)
      ensures forall q :: q in old(pages) && q != page ==> q.live == old(q.live) && q.headers == old(q.headers)
    {
      hide Sound, NoDup, HeadersOk, Without;
      assert PageOk(page);
      ghost var k := Place(page.live, Block(offset, size));
      ghost var at := Place(pages, page);
      SoundFree(page.live, Busy(page), page.freedSize, page.capacity, k);
      HeadersFewer(page.live, page.headers, k);
      SoundEmpty(page.capacity);
      Only(pages, at);
      WithoutAt(page.live, k);
      assert page.large ==> Without(page.live, k) == [];
      assert 0 < at && ChainAt(pages, at) && (page == root <==> at == |pages| - 1);
      if page == root {
        page.busySize := busySize;
      }
      page.freedSize := page.freedSize + size;
      page.live := Without(page.live, k);
      released := false;
      if page.freedSize == page.busySize {
        if page.next == null {
          // the top page stays and starts over
          page.busySize, page.freedSize := 0, 0;
          busySize := 0;
        } else {
          // any other page goes
          UnlinkPage(page, pages, at);
          WithoutMembers(pages, at);
          WithoutEnds(pages, at);
          pages := Without(pages, at);
          released := true;
        }
      }
      forall p | p in old(pages) && p != sentinel && p != page
        ensures PageOk(p)
      {
        assert old(PageOk(p));
      }
      assert !released ==> PageOk(page);
    }

    /** Room for the header and the characters, rounded up to eight bytes, with the size written down. */
    method AllocateString(length: nat) returns (page: Page, offset: nat)
      requires Valid() && (root == sentinel ==> Round8(4 + length) <= LargeThreshold)
      modifies this, pages
      ensures Valid() && page in pages && Block(offset, Round8(4 + length)) in page.live && offset in page.headers
      ensures page in old(pages) ==> page.live == old(page.live) + [Block(offset, Round8(4 + length))]
      ensures page in old(pages) ==> forall k :: k != offset && k in old(page.headers) ==> k in page.headers
      ensures page in old(pages) <==> old(busySize) + Round8(4 + length) <= PageSize
      ensures page in old(pages) ==> pages == old(pages)
      ensures page !in old(pages) ==> page in pages && forall q :: q in pages <==> q in old(pages) || q == page
      ensures page !in old(pages) ==> fresh(page) && page.live == [Block(offset, Round8(4 + length))]
      ensures forall q :: q in old(pages) && q != page ==> q in pages && q.live == old(q.live) && q.headers == old(q.headers)
    {
      hide Sound, NoDup, HeadersOk, Chain;
      var full := Round8(4 + length);
      RoundedUp(4 + length);
      page, offset := AllocateMemory(full);
      assert PageOk(page);
      HeadersAdd(page.live, Busy(page), page.freedSize, page.capacity, page.headers, Block(offset, full));
      page.headers := page.headers[offset := Header(offset / 8 % 65536, (if full < MaxEncoded then full / 8 else 0) % 65536)];
      forall p | p in pages && p != sentinel && p != page
        ensures PageOk(p)
      {
      }
    }

    /** The header alone gives the size back, except that a whole-page string takes it from its page. */
    method DeallocateString(page: Page, offset: nat, ghost size: nat) returns (released: bool)
      requires Valid() && page in pages && Block(offset, size) in page.live && offset in page.headers
      modifies this, page, (set y | y in pages)`next, (set y | y in pages)`prev
      ensures Valid() && root == old(root)
      ensures page.live == Removed(old(page.live), Block(offset, size)) && page.headers == old(page.headers)
      ensures released <==> page != root && page.live == []
      ensures pages == if released then Removed(old(pages), page) else old(pages)
      ensures forall q :: q in old(pages) && q != page ==> q.live == old(q.live) && q.headers == old(q.headers)
    {
      assert PageOk(page);
      var header := page.headers[offset];
      DecodeEncoded(Block(offset, size), page.busySize);
      // the header's own offset leads back to the start of the page
      assert offset - header.pageOffset * 8 == 0;
      var full := DecodedSize(header, page.busySize);
      assert full == size;
      released := DeallocateMemory(page, offset, full);
    }
  }

  lemma RoundedUp(n: nat)
    requires 0 < n
    ensures 0 < Round8(n) && Round8(n) % 8 == 0 && n <= Round8(n) < n + 8
  {
  }

  /** Two live blocks never share an offset, so a header belongs to one of them. */
  lemma HeadersAdd(live: seq<Block>, busy: nat, freed: nat, capacity: nat, headers: map<nat, Header>, b: Block)
    requires Sound(live, busy, freed, capacity) && HeadersOk(live, headers) && b in live
    ensures HeadersOk(live, headers[b.offset := Encoded(b)])
  {
    var i := Place(live, b);
    forall c | c in live && c.offset == b.offset
      ensures c == b
    {
      var j := Place(live, c);
    }
  }

  lemma SizesOf(live: seq<Block>, busy: nat, freed: nat, capacity: nat)
    requires Sound(live, busy, freed, capacity)
    ensures freed <= busy <= capacity
  {
  }

  lemma HeadersBump(live: seq<Block>, headers: map<nat, Header>, b: Block)
    requires HeadersOk(live, headers)
    ensures HeadersOk(live + [b], headers - {b.offset})
  {
  }

  lemma HeadersOne(size: nat)
    ensures HeadersOk([Block(0, size)], map[])
  {
  }

  lemma WithEnds(s: seq<Page>, i: nat, x: Page)
    requires 0 < i <= |s|
    ensures var r := With(s, i, x);
            r != [] && r[0] == s[0] && r[|r| - 1] == if i == |s| then x else s[|s| - 1]
  {
  }

  lemma WithoutEnds(s: seq<Page>, k: nat)
    requires 0 < k < |s| - 1
    ensures var r := Without(s, k); r != [] && r[0] == s[0] && r[|r| - 1] == s[|s| - 1]
  {
  }

  lemma HeadersFewer(live: seq<Block>, headers: map<nat, Header>, k: nat)
    requires k < |live| && HeadersOk(live, headers)
    ensures HeadersOk(Without(live, k), headers)
  {
  }

  ghost function Removed<T>(s: seq<T>, x: T): seq<T>
    requires x in s
  {
    Without(s, Place(s, x))
  }
}
