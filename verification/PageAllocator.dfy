/** The page allocator of an XML document (aux-src/pugixml/pugixml.cc:450-743): a doubly linked list
    of pages, the last of which, the root, is the one being filled. Each page carries the ghost list
    of its live blocks. */
module PageAllocator {
  import opened Basics

  // A 64-bit build: a page is 32768 bytes less its 40-byte header, blocks are aligned to 8 bytes.
  const PAGE_SIZE: nat := 32728
  const ALIGNMENT: nat := 8
  const MAX_ENCODED_OFFSET: nat := 0x1_0000 * ALIGNMENT
  const STRING_HEADER_SIZE: nat := 4

  datatype Block = Block(offset: nat, size: nat)

  ghost function Total(blocks: seq<Block>): nat {
    if blocks == [] then 0 else blocks[0].size + Total(blocks[1..])
  }

  /** Blocks in ascending order, none empty, none overlapping, all below the limit. */
  ghost predicate Disjoint(blocks: seq<Block>, limit: nat) {
    (forall i :: 0 <= i < |blocks| ==> Inside(blocks[i], limit)) &&
    forall i, j :: 0 <= i < j < |blocks| ==> blocks[i].offset + blocks[i].size <= blocks[j].offset
  }

  ghost predicate Inside(b: Block, limit: nat) {
    0 < b.size && b.offset + b.size <= limit && b.offset % ALIGNMENT == 0 && b.size % ALIGNMENT == 0
  }

  ghost function Without<T>(s: seq<T>, i: nat): (r: seq<T>)
    requires i < |s|
    ensures |r| == |s| - 1
    ensures forall j :: 0 <= j < |r| ==> r[j] == s[if j < i then j else j + 1]
  {
    s[..i] + s[i + 1..]
  }

  lemma {:induction false} TotalSnoc(blocks: seq<Block>, b: Block)
    ensures Total(blocks + [b]) == Total(blocks) + b.size
  {
    if blocks == [] {
      assert blocks + [b] == [b];
    } else {
      assert (blocks + [b])[1..] == blocks[1..] + [b];
      TotalSnoc(blocks[1..], b);
    }
  }

  lemma {:induction false} TotalWithout(blocks: seq<Block>, i: nat)
    requires i < |blocks|
    ensures Total(Without(blocks, i)) == Total(blocks) - blocks[i].size
    ensures blocks[i].size <= Total(blocks)
  {
    if i == 0 {
      assert Without(blocks, i) == blocks[1..];
    } else {
      assert Without(blocks, i)[1..] == Without(blocks[1..], i - 1);
      TotalWithout(blocks[1..], i - 1);
    }
  }

  lemma {:induction false} TotalZero(blocks: seq<Block>)
    requires forall i :: 0 <= i < |blocks| ==> blocks[i].size > 0
    ensures Total(blocks) == 0 <==> blocks == []
  {
    if blocks != [] {
      assert blocks[0].size > 0;
    }
  }

  class Page {
    const capacity: nat
    var prev: Page?
    var next: Page?
    var busySize: nat
    var freedSize: nat
    ghost var live: seq<Block>

    constructor (dataSize: nat)
      ensures capacity == dataSize && prev == null && next == null && busySize == 0 && freedSize == 0 && live == []
    {
      capacity := dataSize;
      prev, next := null, null;
      busySize, freedSize := 0, 0;
      live := [];
    }
  }

  /** What is true of a page of which `busy` bytes have been handed out: the bytes freed and the
      bytes still live add up to it, live blocks do not overlap, and only the root can be without
      any, in which case it starts afresh. */
  ghost predicate PageOk(isRoot: bool, busy: nat, capacity: nat, freed: nat, live: seq<Block>) {
    busy <= capacity && busy % ALIGNMENT == 0 && Disjoint(live, busy) && freed + Total(live) == busy &&
    (if isRoot then capacity == PAGE_SIZE && (live == [] ==> busy == 0) else live != []) &&
    (capacity > PAGE_SIZE ==> live == [Block(0, capacity)])
  }

  lemma PageGrows(busy: nat, capacity: nat, freed: nat, live: seq<Block>, size: nat)
    requires PageOk(true, busy, capacity, freed, live) && 0 < size && size % ALIGNMENT == 0 && busy + size <= PAGE_SIZE
    ensures PageOk(true, busy + size, capacity, freed, live + [Block(busy, size)])
  {
    TotalSnoc(live, Block(busy, size));
  }

  lemma PageStarts(isRoot: bool, capacity: nat, size: nat)
    requires 0 < size <= capacity && size % ALIGNMENT == 0
    requires if isRoot || size <= PAGE_SIZE then capacity == PAGE_SIZE || (!isRoot && capacity == size)
             else capacity == size
    ensures PageOk(isRoot, size, capacity, 0, [Block(0, size)])
  {
    TotalSnoc([], Block(0, size));
  }

  /** A root page becomes an ordinary one only when it is not empty. */
  lemma PageRetires(busy: nat, capacity: nat, freed: nat, live: seq<Block>, size: nat)
    requires PageOk(true, busy, capacity, freed, live) && busy + size > PAGE_SIZE && size <= PAGE_SIZE
    ensures PageOk(false, busy, capacity, freed, live)
  {
  }

  lemma PageFrees(isRoot: bool, busy: nat, capacity: nat, freed: nat, live: seq<Block>, i: nat)
    requires PageOk(isRoot, busy, capacity, freed, live) && i < |live|
    ensures live[i].offset < busy && freed + live[i].size <= busy
    ensures freed + live[i].size == busy <==> |live| == 1
    ensures |live| == 1 ==> Without(live, i) == [] && (isRoot ==> PageOk(true, 0, capacity, 0, []))
    ensures |live| > 1 ==> PageOk(isRoot, busy, capacity, freed + live[i].size, Without(live, i))
  {
    TotalWithout(live, i);
    TotalZero(Without(live, i));
  }

  ghost function NextIn(pages: seq<Page>, i: nat): Page? {
    if i + 1 < |pages| then pages[i + 1] else null
  }

  ghost function PrevIn(pages: seq<Page>, i: nat): Page? {
    if 0 < i <= |pages| then pages[i - 1] else null
  }

  /** The pages form one doubly linked list. */
  ghost predicate Linked(pages: seq<Page>)
    reads pages`next, pages`prev
  {
    forall i :: 0 <= i < |pages| ==> pages[i].next == NextIn(pages, i) && pages[i].prev == PrevIn(pages, i)
  }

  lemma WithoutElements(pages: seq<Page>, k: nat)
    requires k < |pages| && Distinct(pages)
    ensures Distinct(Without(pages, k))
    ensures forall p :: p in Without(pages, k) <==> p in pages && p != pages[k]
  {
    forall p | p in pages && p != pages[k]
      ensures p in Without(pages, k)
    {
      var i :| 0 <= i < |pages| && pages[i] == p;
      assert Without(pages, k)[if i < k then i else i - 1] == p;
    }
  }

  lemma EndsOf(page: Page, pages: seq<Page>, k: nat)
    requires k < |pages| && pages[k] == page && Linked(pages) && Distinct(pages)
    ensures page.next == null <==> k == |pages| - 1
    ensures page == pages[|pages| - 1] <==> k == |pages| - 1
  {
  }

  /** Puts the page behind the last one. */
  method LinkAtEnd(page: Page, last: Page, ghost pages: seq<Page>)
    requires pages != [] && pages[|pages| - 1] == last && Linked(pages) && Distinct(pages) && page !in pages &&
             page.next == null
    modifies pages`next, page`prev
    ensures Linked(pages + [page])
  {
    ghost var n := |pages| - 1;
    page.prev := last;
    last.next := page;
    forall i | 0 <= i <= n
      ensures pages[i].next == NextIn(pages + [page], i) && pages[i].prev == PrevIn(pages + [page], i)
    {
      assert old(pages[i].next) == NextIn(pages, i);
    }
  }

  /** Puts the page in front of the last one. */
  method LinkBeforeEnd(page: Page, last: Page, ghost pages: seq<Page>)
    requires |pages| >= 2 && pages[|pages| - 1] == last && Linked(pages) && Distinct(pages) && page !in pages
    modifies pages`next, pages`prev, page`next, page`prev
    ensures Linked(pages[..|pages| - 1] + [page, last])
  {
    page.prev := last.prev;
    page.next := last;
    last.prev.next := page;
    last.prev := page;
  }

  /** Takes the k-th page, which is neither the first nor the last, out of the list. */
  method Unlink(page: Page, ghost pages: seq<Page>, ghost k: nat)
    requires 0 < k < |pages| - 1 && pages[k] == page && Linked(pages) && Distinct(pages)
    modifies pages`next, pages`prev
    ensures Linked(Without(pages, k))
  {
    page.prev.next := page.next;
    page.next.prev := page.prev;
  }

  class XmlAllocator {
    var root: Page
    var busySize: nat
    ghost var pages: seq<Page>  // in list order
    ghost var allocations: nat  // made so far

    ghost function Busy(p: Page): nat
      reads this, p
    {
      if p == root then busySize else p.busySize
    }

    ghost predicate PageIn(i: nat)
      requires i < |pages|
      reads this, pages
    {
      var p := pages[i];
      PageOk(p == root, Busy(p), p.capacity, p.freedSize, p.live)
    }

    ghost predicate Valid()
      reads this, pages
    {
      pages != [] && pages[0].live == [Block(0, PAGE_SIZE)] && root == pages[|pages| - 1] && Linked(pages) &&
        Distinct(pages) &&
      (forall i :: 0 <= i < |pages| ==> PageIn(i)) && (|pages| == 1 <==> allocations == 0)
    }

    /** The assert of the branch for large blocks, where a block of this size reaches it. */
    ghost predicate AssertHolds(size: nat)
      reads this, root
    {
      busySize + size > PAGE_SIZE && size > PAGE_SIZE / 4 ==> root.prev != null
    }

    /** The allocator of a new document: its one page counts as full of the document object, which
        is never freed through the allocator. */
    constructor ()
      ensures Valid() && pages == [root] && fresh(root) && allocations == 0
      ensures forall size: nat :: AssertHolds(size) <==> size <= PAGE_SIZE / 4
    {
      var page := new Page(PAGE_SIZE);
      page.busySize := PAGE_SIZE;
      page.live := [Block(0, PAGE_SIZE)];
      root := page;
      busySize := page.busySize;
      pages := [page];
      allocations := 0;
      new;
      assert Total(page.live) == PAGE_SIZE + Total(page.live[1..]);
    }

    /** Until the first allocation the root page is the full one of the document object. */
    lemma FirstPageIsFull()
      requires Valid()
      ensures |pages| == 1 ==> busySize == PAGE_SIZE
      ensures |pages| > 1 ==> pages[0] != root
    {
      assert PageIn(0);
      TotalSnoc([], Block(0, PAGE_SIZE));
    }

    /** The root has no page in front of it exactly until the first allocation, so that the assert
        fails exactly for a large block that is the first one: whatever has been freed since then
        does not bring that state back. */
    lemma AssertFailsIff(size: nat)
      requires Valid()
      ensures root.prev == null <==> |pages| == 1
      ensures !AssertHolds(size) <==> allocations == 0 && size > PAGE_SIZE / 4
    {
      hide PageOk, Distinct;
      FirstPageIsFull();
      assert pages[|pages| - 1].prev == PrevIn(pages, |pages| - 1);
    }

    /** Live blocks never overlap, whichever pages they are on: pages are different objects, and on
        one page the ranges are disjoint and below what has been handed out. */
    lemma BlocksNeverOverlap(k: nat, i: nat, j: nat)
      requires Valid() && k < |pages| && i < j < |pages[k].live|
      ensures var a, b := pages[k].live[i], pages[k].live[j];
              a.offset + a.size <= b.offset && b.offset + b.size <= Busy(pages[k]) <= pages[k].capacity
    {
      assert PageIn(k);
    }

    /** The bytes handed out on a page are the freed ones and the live ones, and every page but the
        root holds a live block: it is released as soon as it does not. */
    lemma EveryByteAccounted(k: nat)
      requires Valid() && k < |pages|
      ensures pages[k].freedSize + Total(pages[k].live) == Busy(pages[k])
      ensures pages[k] != root ==> pages[k].live != []
      ensures pages[k].live == [] ==> Busy(pages[k]) == 0
    {
      assert PageIn(k);
    }

    /** Takes the block from the root page, or from a new page. A large block gets a page of its own
        in front of the root. */
    method AllocateMemory(size: nat) returns (page: Page, block: Block)
      requires Valid() && size > 0 && size % ALIGNMENT == 0
      requires AssertHolds(size)
      modifies this, pages
      ensures Valid() && allocations == old(allocations) + 1
      ensures page in pages && block.size == size && page.live ==
              (if page in old(pages) then old(page.live) else []) + [block]
      ensures forall p :: p in old(pages) ==> p in pages && (p != page ==> p.live == old(p.live))
      ensures forall p :: p in pages ==> p in old(pages) || (p == page && fresh(p))
      ensures |pages| >= 2 && pages[0] == old(pages)[0]
      ensures if old(busySize) + size <= PAGE_SIZE
              then page == old(root) && block.offset == old(busySize) && pages == old(pages) && root == old(root)
              else block.offset == 0 && NewPage(page, size, old(pages), old(root))
    {
      hide PageOk, Linked, Distinct;
      FirstPageIsFull();
      if busySize + size > PAGE_SIZE {
        page, block := AllocateMemoryOob(size);
        return;
      }
      page := root;
      block := Block(busySize, size);
      assert PageIn(|pages| - 1);
      PageGrows(busySize, root.capacity, root.freedSize, root.live, size);
      root.live := root.live + [block];
      busySize := busySize + size;
      allocations := allocations + 1;
      forall i | 0 <= i < |pages|
        ensures PageIn(i)
      {
        assert old(PageIn(i));
      }
    }

    /** A page for a small block becomes the last and the root; one for a large block is put in front
        of the root. */
    ghost predicate NewPage(page: Page, size: nat, pages': seq<Page>, root': Page)
      reads this
    {
      pages' != [] && page !in pages' &&
      if 4 * size <= PAGE_SIZE then pages == pages' + [page] && root == page
      else pages == pages'[..|pages'| - 1] + [page, root'] && root == root'
    }

    method AllocateMemoryOob(size: nat) returns (page: Page, block: Block)
      requires Valid() && size > 0 && size % ALIGNMENT == 0
      requires AssertHolds(size) && busySize + size > PAGE_SIZE
      modifies this, pages
      ensures Valid() && allocations == old(allocations) + 1
      ensures fresh(page) && page in pages && block == Block(0, size) && page.live == [block]
      ensures forall p :: p in old(pages) ==> p in pages && p.live == old(p.live)
      ensures forall p :: p in pages ==> p in old(pages) || p == page
      ensures |pages| >= 2 && pages[0] == old(pages)[0]
      ensures NewPage(page, size, old(pages), old(root))
    {
      hide PageOk, Linked, Distinct;
      AssertFailsIff(size);
      page := new Page(if size <= PAGE_SIZE / 4 then PAGE_SIZE else size);
      block := Block(0, size);
      if size <= PAGE_SIZE / 4 {
        AppendPage(page, size);
      } else {
        InsertPage(page, size);
      }
    }

    /** Inserts the page at the end of the list. */
    method AppendPage(page: Page, size: nat)
      requires Valid() && 0 < size <= PAGE_SIZE && size % ALIGNMENT == 0 && busySize + size > PAGE_SIZE
      requires page !in pages && page.capacity == PAGE_SIZE && page.next == null && page.freedSize == 0
      modifies this, pages, page
      ensures Valid() && pages == old(pages) + [page] && root == page && page.live == [Block(0, size)]
      ensures allocations == old(allocations) + 1
      ensures forall p :: p in old(pages) ==> p.live == old(p.live)
    {
      hide PageOk, Linked, NextIn, PrevIn;
      assert PageIn(|pages| - 1);
      PageRetires(busySize, root.capacity, root.freedSize, root.live, size);
      PageStarts(true, PAGE_SIZE, size);
      page.live := [Block(0, size)];
      root.busySize := busySize;
      LinkAtEnd(page, root, pages);
      root := page;
      busySize := size;
      pages := pages + [page];
      allocations := allocations + 1;
      forall i | 0 <= i < |pages|
        ensures PageIn(i)
      {
        assert i < |pages| - 1 ==> old(PageIn(i));
      }
    }

    /** Inserts the page before the end of the list. */
    method InsertPage(page: Page, size: nat)
      requires Valid() && 0 < size && size % ALIGNMENT == 0 && |pages| >= 2
      requires page !in pages && page.capacity == size && page.freedSize == 0
      modifies this, pages, page
      ensures Valid() && pages == old(pages)[..|old(pages)| - 1] + [page, root] && root == old(root)
      ensures page.live == [Block(0, size)] && page.busySize == size && allocations == old(allocations) + 1
      ensures forall p :: p in old(pages) ==> p.live == old(p.live)
    {
      hide PageOk, Linked, NextIn, PrevIn;
      PageStarts(false, size, size);
      page.live := [Block(0, size)];
      LinkBeforeEnd(page, root, pages);
      page.busySize := size;
      ghost var n := |pages| - 1;
      pages := pages[..n] + [page, root];
      allocations := allocations + 1;
      forall i | 0 <= i < |pages|
        ensures PageIn(i)
      {
        if i != n {
          assert old(PageIn(if i < n then i else n));
        }
      }
    }

    /** Frees the i-th live block of the page. When it was the last one, a page other than the root
        is taken out of the list and released; the root starts afresh. */
    method DeallocateMemory(page: Page, ghost i: nat, size: nat)
      requires Valid() && page in pages && i < |page.live| && size == page.live[i].size
      requires page != pages[0]
      modifies this, pages
      ensures Valid() && root == old(root) && pages[0] == old(pages)[0] && |pages| >= 2
      ensures allocations == old(allocations)
      ensures page.live == Without(old(page.live), i)
      ensures forall p :: p in old(pages) && p != page ==> p.live == old(p.live)
      ensures if page != root && |old(page.live)| == 1
              then page !in pages && forall p :: p in old(pages) && p != page ==> p in pages
              else pages == old(pages)
    {
      hide PageOk, Linked, NextIn, PrevIn, Distinct, Without;
      ghost var k :| 0 <= k < |pages| && pages[k] == page;
      EndsOf(page, pages, k);
      WithoutElements(pages, k);
      assert PageIn(k);
      PageFrees(page == root, Busy(page), page.capacity, page.freedSize, page.live, i);
      if page == root {
        page.busySize := busySize;
      }
      page.freedSize := page.freedSize + size;
      page.live := Without(page.live, i);
      if page.freedSize == page.busySize {
        if page.next == null {
          page.busySize := 0;
          page.freedSize := 0;
          busySize := 0;
        } else {
          Unlink(page, pages, k);
          pages := Without(pages, k);
        }
      }
      forall j | 0 <= j < |pages|
        ensures PageIn(j)
      {
        ghost var j' := if pages == old(pages) || j < k then j else j + 1;
        assert old(PageIn(j'));
      }
    }

    /** A block for a string, with the header that lets it be found again from its address. */
    method AllocateString(length: nat) returns (page: Page, block: Block, header: StringHeader)
      requires Valid() && AssertHolds(RoundedUp(STRING_HEADER_SIZE + length))
      modifies this, pages
      ensures Valid() && allocations == old(allocations) + 1
      ensures page in pages && page.live == (if page in old(pages) then old(page.live) else []) + [block]
      ensures STRING_HEADER_SIZE + length <= block.size < STRING_HEADER_SIZE + length + ALIGNMENT
      ensures forall p :: p in old(pages) ==> p in pages && (p != page ==> p.live == old(p.live))
      ensures header == HeaderOf(block) && header.pageOffset < 0x1_0000 && header.fullSize < 0x1_0000
    {
      var fullSize := RoundedUp(STRING_HEADER_SIZE + length);
      page, block := AllocateMemory(fullSize);
      ghost var k :| 0 <= k < |pages| && pages[k] == page;
      HeaderFits(k, |page.live| - 1);
      header := StringHeader(block.offset / ALIGNMENT,
                             if fullSize < MAX_ENCODED_OFFSET then fullSize / ALIGNMENT else 0);
    }

    /** The header gives back both the start of the page and the size of the block. */
    lemma HeaderFits(k: nat, i: nat)
      requires Valid() && k < |pages| && i < |pages[k].live|
      ensures var block, page := pages[k].live[i], pages[k];
              var header := HeaderOf(block);
              header.pageOffset < 0x1_0000 && header.fullSize < 0x1_0000 &&
              header.pageOffset * ALIGNMENT == block.offset &&
              (if header.fullSize == 0 then page.busySize else header.fullSize * ALIGNMENT) == block.size
    {
      assert PageIn(k);
      var page := pages[k];
      assert Inside(page.live[i], Busy(page));
      if page.capacity > PAGE_SIZE {
        TotalSnoc([], Block(0, page.capacity));
      }
    }

    /** Frees exactly the block that AllocateString made, given its address and header alone. */
    method DeallocateString(address: nat, base: map<nat, Page>, header: StringHeader, ghost k: nat, ghost i: nat)
      requires Valid() && 0 < k < |pages| && i < |pages[k].live| && header == HeaderOf(pages[k].live[i])
      requires address - pages[k].live[i].offset in base && base[address - pages[k].live[i].offset] == pages[k]
      modifies this, pages
      ensures Valid() && allocations == old(allocations) && old(pages)[k].live == Without(old(pages[k].live), i)
      ensures forall p :: p in old(pages) && p != old(pages)[k] ==> p.live == old(p.live)
    {
      HeaderFits(k, i);
      var page := base[address - header.pageOffset * ALIGNMENT];
      var fullSize := if header.fullSize == 0 then page.busySize else header.fullSize * ALIGNMENT;
      DeallocateMemory(page, i, fullSize);
    }
  }

  datatype StringHeader = StringHeader(pageOffset: nat, fullSize: nat)

  function RoundedUp(size: nat): (full: nat)
    ensures full % ALIGNMENT == 0 && size <= full < size + ALIGNMENT
  {
    (size + (ALIGNMENT - 1)) / ALIGNMENT * ALIGNMENT
  }

  ghost function HeaderOf(block: Block): StringHeader {
    StringHeader(block.offset / ALIGNMENT, if block.size < MAX_ENCODED_OFFSET then block.size / ALIGNMENT else 0)
  }
}
