/** The bump allocator for executable memory: blocks never overlap, and pages are at least half
    used on average. */
module PageAllocator {

  datatype Block = Block(start: nat, size: nat)
  {
    function End(): nat { start + size }
  }

  predicate Apart(a: Block, b: Block) {
    a.End() <= b.start || b.End() <= a.start
  }

  /** What became of one page: the bytes handed out of it, and the request that opened it. */
  datatype Page = Page(start: nat, used: nat, first: nat)

  function Used(pages: seq<Page>): nat {
    if pages == [] then 0 else Used(pages[..|pages| - 1]) + pages[|pages| - 1].used
  }

  function Sizes(blocks: seq<Block>): nat {
    if blocks == [] then 0 else Sizes(blocks[..|blocks| - 1]) + blocks[|blocks| - 1].size
  }

  /** The page lies behind or before each of the others. */
  ghost predicate FreshPage(pages: seq<Page>, start: nat, pageSize: nat) {
    start != 0 &&
    forall k :: 0 <= k < |pages| ==> start + pageSize <= pages[k].start || pages[k].start + pageSize <= start
  }

  /** The mapped pages: apart, never overfull, and each but the last was left because the next
      page's first request did not fit any more. */
  ghost predicate PagesOk(pages: seq<Page>, pageSize: nat) {
    AllFresh(pages, pageSize) && NoneOverfull(pages, pageSize) && LeftForNext(pages, pageSize)
  }

  ghost predicate AllFresh(pages: seq<Page>, pageSize: nat) {
    forall k :: 0 <= k < |pages| ==> FreshPage(pages[..k], pages[k].start, pageSize)
  }

  ghost predicate NoneOverfull(pages: seq<Page>, pageSize: nat) {
    forall k :: 0 <= k < |pages| ==> pages[k].first <= pages[k].used <= pageSize
  }

  ghost predicate LeftForNext(pages: seq<Page>, pageSize: nat) {
    forall k :: 0 < k < |pages| ==> pageSize < pages[k - 1].used + pages[k].first
  }

  ghost predicate InPage(b: Block, p: Page) {
    p.start <= b.start && b.End() <= p.start + p.used
  }

  ghost predicate InSomePage(b: Block, pages: seq<Page>) {
    exists k :: 0 <= k < |pages| && InPage(b, pages[k])
  }

  ghost predicate BlocksOk(blocks: seq<Block>, pages: seq<Page>) {
    && (forall i :: 0 <= i < |blocks| ==> InSomePage(blocks[i], pages))
    && (forall i, j :: 0 <= i < j < |blocks| ==> Apart(blocks[i], blocks[j]))
    && Sizes(blocks) == Used(pages)
  }

  class Memory {
    const pageSize: nat
    var address: nat
    var offset: nat
    ghost var pages: seq<Page>
    ghost var blocks: seq<Block>

    ghost predicate Valid()
      reads this
    {
      && PagesOk(pages, pageSize) && BlocksOk(blocks, pages)
      && (pages == [] ==> address == 0)
      && (pages != [] ==> address != 0 && address == pages[|pages| - 1].start
                          && offset == pages[|pages| - 1].used)
    }

    constructor (pageSize: nat)
      ensures Valid() && this.pageSize == pageSize && pages == [] && blocks == []
    {
      this.pageSize, address, offset := pageSize, 0, 0;
      pages, blocks := [], [];
    }

    /** mapped is the page that the system would map now, or 0 when it has none. A served request
        becomes a new block; a refused one changes nothing. */
    method AllocUnprotected(size: nat, mapped: nat) returns (ptr: nat)
      requires Valid() && (mapped != 0 ==> FreshPage(pages, mapped, pageSize))
      modifies this
      ensures Valid()
      ensures ptr == 0 ==> address == old(address) && offset == old(offset)
      ensures ptr == 0 ==> pages == old(pages) && blocks == old(blocks)
      ensures ptr != 0 ==> blocks == old(blocks) + [Block(ptr, size)]
      ensures ptr == 0 <==>
        size > pageSize || (mapped == 0 && (old(address) == 0 || old(offset) + size > pageSize))
    {
      hide PagesOk, BlocksOk, FreshPage;
      if size > pageSize {
        return 0;
      }
      if address != 0 {
        var nextOffset := offset + size;
        if nextOffset <= pageSize {
          ptr := address + offset;
          Bump(blocks, pages, pageSize, size);
          pages := Grown(pages, size);
          offset := nextOffset;
          blocks := blocks + [Block(ptr, size)];
          return ptr;
        }
      }
      if mapped == 0 {
        return 0;
      }
      Open(blocks, pages, pageSize, mapped, size);
      pages := pages + [Page(mapped, size, size)];
      blocks := blocks + [Block(mapped, size)];
      address := mapped;
      offset := size;
      return mapped;
    }
  }

  ghost function Grown(pages: seq<Page>, size: nat): seq<Page>
    requires pages != []
  {
    var last := pages[|pages| - 1];
    pages[|pages| - 1 := last.(used := last.used + size)]
  }

  /** A request served from the current page. */
  lemma Bump(blocks: seq<Block>, pages: seq<Page>, pageSize: nat, size: nat)
    requires pages != [] && PagesOk(pages, pageSize) && BlocksOk(blocks, pages)
    requires pages[|pages| - 1].used + size <= pageSize
    ensures PagesOk(Grown(pages, size), pageSize)
    ensures var last := pages[|pages| - 1];
      BlocksOk(blocks + [Block(last.start + last.used, size)], Grown(pages, size))
  {
    hide PagesOk, BlocksOk, InPage, InSomePage, Used, Sizes;
    var last, grown := pages[|pages| - 1], Grown(pages, size);
    var b := Block(last.start + last.used, size);
    BumpPages(pages, pageSize, size);
    GrownHolds(b, pages, size);
    forall i | 0 <= i < |blocks| ensures InSomePage(blocks[i], grown) && Apart(blocks[i], b) {
      BumpOther(blocks, pages, pageSize, size, i);
    }
    UsedGrown(pages, size);
    OneMoreBlock(blocks, b, pages, grown);
  }

  lemma BumpPages(pages: seq<Page>, pageSize: nat, size: nat)
    requires pages != [] && PagesOk(pages, pageSize) && pages[|pages| - 1].used + size <= pageSize
    ensures PagesOk(Grown(pages, size), pageSize)
  {
    var grown := Grown(pages, size);
    forall k | 0 <= k < |grown| ensures FreshPage(grown[..k], grown[k].start, pageSize) {
      assert FreshPage(pages[..k], pages[k].start, pageSize);
      assert grown[..k] == pages[..k];
    }
  }

  lemma GrownHolds(b: Block, pages: seq<Page>, size: nat)
    requires pages != []
    requires var last := pages[|pages| - 1]; b == Block(last.start + last.used, size)
    ensures InSomePage(b, Grown(pages, size))
  {
    assert InPage(b, Grown(pages, size)[|pages| - 1]);
  }

  lemma BumpOther(blocks: seq<Block>, pages: seq<Page>, pageSize: nat, size: nat, i: nat)
    requires pages != [] && PagesOk(pages, pageSize) && BlocksOk(blocks, pages) && i < |blocks|
    requires pages[|pages| - 1].used + size <= pageSize
    ensures InSomePage(blocks[i], Grown(pages, size))
    ensures var last := pages[|pages| - 1]; Apart(blocks[i], Block(last.start + last.used, size))
  {
    hide Used, Sizes;
    assert InSomePage(blocks[i], pages);
    var k :| 0 <= k < |pages| && InPage(blocks[i], pages[k]);
    assert InPage(blocks[i], Grown(pages, size)[k]);
    if k < |pages| - 1 {
      PagesApart(pages, pageSize, k, |pages| - 1);
    }
  }

  lemma UsedGrown(pages: seq<Page>, size: nat)
    requires pages != []
    ensures Used(Grown(pages, size)) == Used(pages) + size
  {
    assert Grown(pages, size)[..|pages| - 1] == pages[..|pages| - 1];
  }

  /** Adds a block that is apart from all the others. */
  lemma OneMoreBlock(blocks: seq<Block>, b: Block, pages: seq<Page>, pages': seq<Page>)
    requires BlocksOk(blocks, pages) && InSomePage(b, pages') && Used(pages') == Used(pages) + b.size
    requires forall i :: 0 <= i < |blocks| ==> InSomePage(blocks[i], pages') && Apart(blocks[i], b)
    ensures BlocksOk(blocks + [b], pages')
  {
    hide InSomePage, Used;
    assert (blocks + [b])[..|blocks|] == blocks;
  }

  lemma PagesApart(pages: seq<Page>, pageSize: nat, k: nat, l: nat)
    requires PagesOk(pages, pageSize) && k < l < |pages|
    ensures pages[k].start + pageSize <= pages[l].start || pages[l].start + pageSize <= pages[k].start
  {
    assert FreshPage(pages[..l], pages[l].start, pageSize);
    assert pages[..l][k] == pages[k];
  }

  /** A request that opens a page. */
  lemma Open(blocks: seq<Block>, pages: seq<Page>, pageSize: nat, mapped: nat, size: nat)
    requires PagesOk(pages, pageSize) && BlocksOk(blocks, pages) && FreshPage(pages, mapped, pageSize)
    requires size <= pageSize
    requires pages != [] ==> pageSize < pages[|pages| - 1].used + size
    ensures PagesOk(pages + [Page(mapped, size, size)], pageSize)
    ensures BlocksOk(blocks + [Block(mapped, size)], pages + [Page(mapped, size, size)])
  {
    hide PagesOk, BlocksOk, InPage, InSomePage, Used, Sizes, FreshPage;
    var more := pages + [Page(mapped, size, size)];
    var b := Block(mapped, size);
    OpenPages(pages, pageSize, mapped, size);
    forall i | 0 <= i < |blocks| ensures InSomePage(blocks[i], more) && Apart(blocks[i], b) {
      OpenOther(blocks, pages, pageSize, mapped, size, i);
    }
    OneMoreBlock(blocks, b, pages, more);
  }

  lemma OpenPages(pages: seq<Page>, pageSize: nat, mapped: nat, size: nat)
    requires PagesOk(pages, pageSize) && FreshPage(pages, mapped, pageSize) && size <= pageSize
    requires pages != [] ==> pageSize < pages[|pages| - 1].used + size
    ensures var more := pages + [Page(mapped, size, size)];
      && PagesOk(more, pageSize) && Used(more) == Used(pages) + size
      && InSomePage(Block(mapped, size), more)
  {
    hide FreshPage, AllFresh, InSomePage, Used;
    OpenUsed(pages, mapped, size);
    OpenFresh(pages, pageSize, mapped, size);
  }

  lemma OpenFresh(pages: seq<Page>, pageSize: nat, mapped: nat, size: nat)
    requires AllFresh(pages, pageSize) && FreshPage(pages, mapped, pageSize)
    ensures AllFresh(pages + [Page(mapped, size, size)], pageSize)
  {
    hide FreshPage;
    var more := pages + [Page(mapped, size, size)];
    forall k | 0 <= k < |more| ensures FreshPage(more[..k], more[k].start, pageSize) {
      assert more[..k] == if k < |pages| then pages[..k] else pages;
    }
  }

  lemma OpenUsed(pages: seq<Page>, mapped: nat, size: nat)
    ensures var more := pages + [Page(mapped, size, size)];
      Used(more) == Used(pages) + size && InSomePage(Block(mapped, size), more)
  {
    var more := pages + [Page(mapped, size, size)];
    assert more[..|pages|] == pages;
    assert InPage(Block(mapped, size), more[|pages|]);
  }

  lemma OpenOther(blocks: seq<Block>, pages: seq<Page>, pageSize: nat, mapped: nat, size: nat, i: nat)
    requires PagesOk(pages, pageSize) && BlocksOk(blocks, pages) && FreshPage(pages, mapped, pageSize)
    requires i < |blocks| && size <= pageSize
    ensures InSomePage(blocks[i], pages + [Page(mapped, size, size)])
    ensures Apart(blocks[i], Block(mapped, size))
  {
    hide Used, Sizes;
    assert InSomePage(blocks[i], pages);
    var k :| 0 <= k < |pages| && InPage(blocks[i], pages[k]);
    assert InPage(blocks[i], (pages + [Page(mapped, size, size)])[k]);
  }

  /** The next-fit bound: of every two consecutive pages, more than one page is used. */
  lemma {:induction false} PagesHalfUsed(pages: seq<Page>, pageSize: nat)
    requires PagesOk(pages, pageSize)
    ensures |pages| / 2 * pageSize <= Used(pages)
    ensures 2 <= |pages| ==> |pages| / 2 * pageSize < Used(pages)
    decreases |pages|
  {
    var n := |pages|;
    if n >= 2 {
      var front := pages[..n - 1];
      assert front[..n - 2] == pages[..n - 2];
      PagesPrefix(pages, pageSize, n - 2);
      PagesHalfUsed(pages[..n - 2], pageSize);
      assert Used(pages) == Used(pages[..n - 2]) + pages[n - 2].used + pages[n - 1].used;
      Half(n, pageSize);
    }
  }

  lemma Half(n: nat, pageSize: nat)
    requires n >= 2
    ensures n / 2 * pageSize == (n - 2) / 2 * pageSize + pageSize
  {
    assert n / 2 == (n - 2) / 2 + 1;
  }

  lemma PagesPrefix(pages: seq<Page>, pageSize: nat, n: nat)
    requires PagesOk(pages, pageSize) && n <= |pages|
    ensures PagesOk(pages[..n], pageSize)
  {
    forall k | 0 <= k < n ensures FreshPage(pages[..n][..k], pages[k].start, pageSize) {
      assert pages[..n][..k] == pages[..k];
    }
  }

  /** Over any history of requests: P mapped pages have handed out more than floor(P/2) pages. */
  lemma MemoryWellUsed(blocks: seq<Block>, pages: seq<Page>, pageSize: nat)
    requires PagesOk(pages, pageSize) && BlocksOk(blocks, pages) && 2 <= |pages|
    ensures |pages| / 2 * pageSize < Sizes(blocks)
  {
    PagesHalfUsed(pages, pageSize);
  }
}
