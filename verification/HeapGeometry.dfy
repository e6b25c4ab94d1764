// Where the heap of mm/mem.c lies: the paged area, the page descriptors behind it, and
// the way between a descriptor and its page.
module HeapGeometry {
  import opened Common
  import opened SlabSpec

  // KERNEL_PAGING_START: the start of the region rounded up to a page.
  function PagingStart(start: nat): nat {
    (start + PAGE_SIZE - 1) / PAGE_SIZE * PAGE_SIZE
  }

  // KERNEL_PAGE_NUM for a region that ends at `end`, with descriptors of `desc` bytes.
  function PageNum(start: nat, end: nat, desc: nat): nat
    requires PagingStart(start) <= end
  {
    (end - PagingStart(start)) / (PAGE_SIZE + desc)
  }

  // KERNEL_PAGING_END
  function PagingEnd(start: nat, end: nat, desc: nat): nat
    requires PagingStart(start) <= end
  {
    PageNum(start, end, desc) * PAGE_SIZE + PagingStart(start)
  }

  // KERNEL_PAGE_START: the descriptor array ends where the region ends.
  function DescriptorStart(start: nat, end: nat, desc: nat): int
    requires PagingStart(start) <= end
  {
    end - PageNum(start, end, desc) * desc
  }

  // The paged area and the descriptor array do not overlap, and less than one further
  // page with its descriptor would fit between them.
  lemma AreasDisjoint(start: nat, end: nat, desc: nat)
    requires PagingStart(start) <= end
    ensures start <= PagingStart(start) < start + PAGE_SIZE
    ensures PagingEnd(start, end, desc) <= DescriptorStart(start, end, desc)
    ensures DescriptorStart(start, end, desc) - PagingEnd(start, end, desc) < PAGE_SIZE + desc
  {
    var unit := PAGE_SIZE + desc;
    var room := end - PagingStart(start);
    var n := room / unit;
    assert room == n * unit + room % unit;
    assert n * unit == n * PAGE_SIZE + n * desc;
  }

  // The memory layout the kernel is built for gives 11707 pages, from an address that is a
  // multiple of the size of a task.
  lemma ConfiguredPages()
    ensures PageNum(0x30200000, 0x33000000, 24) == 11707 && PagingStart(0x30200000) % 8192 == 0
  {
  }

  // virt_to_page on a 32-bit address. The guard lets index n, one past the last, through.
  datatype Found = Null | Descriptor(index: nat)

  function VirtToPage(base: nat, n: nat, addr: nat): Found
    requires base < WORD_RANGE && addr < WORD_RANGE
  {
    var i := (addr - base + WORD_RANGE) % WORD_RANGE / PAGE_SIZE;
    if i > n then Null else Descriptor(i)
  }

  // page_address: init_page_map stores this in the descriptor.
  function PageAddress(base: nat, i: nat): nat {
    base + i * PAGE_SIZE
  }

  // An address is mapped to descriptor i exactly when it lies in page i, for every page
  // of the area and for the one behind it that the guard lets through; every other
  // address is mapped to NULL.
  lemma VirtToPageExactly(base: nat, n: nat, addr: nat, i: nat)
    requires base + (n + 1) * PAGE_SIZE <= WORD_RANGE && addr < WORD_RANGE
    ensures base < WORD_RANGE
    ensures VirtToPage(base, n, addr) == Descriptor(i) <==>
      i <= n && PageAddress(base, i) <= addr < PageAddress(base, i) + PAGE_SIZE
    ensures VirtToPage(base, n, addr) == Null <==> addr < base || PageAddress(base, n + 1) <= addr
  {
    var d := addr - base;
    if addr >= base {
      assert (d + WORD_RANGE) % WORD_RANGE == d;
      assert d == d / PAGE_SIZE * PAGE_SIZE + d % PAGE_SIZE;
    } else {
      assert (d + WORD_RANGE) % WORD_RANGE == d + WORD_RANGE;
      assert d + WORD_RANGE >= (n + 1) * PAGE_SIZE;
    }
  }

  // Hence the descriptor of any address of a page leads back to the start of the page.
  lemma PageRoundTrip(base: nat, n: nat, i: nat, off: nat)
    requires base + (n + 1) * PAGE_SIZE <= WORD_RANGE && i < n && off < PAGE_SIZE
    ensures PageAddress(base, i) + off < WORD_RANGE
    ensures VirtToPage(base, n, PageAddress(base, i) + off) == Descriptor(i)
  {
    assert (i + 1) * PAGE_SIZE <= n * PAGE_SIZE;
    VirtToPageExactly(base, n, PageAddress(base, i) + off, i);
  }

  // The offsets that stand for addresses elsewhere: virt_to_page of the address at offset
  // a from the start of the area is the page that offset lies in.
  lemma OffsetsAgree(base: nat, n: nat, a: nat)
    requires base + (n + 1) * PAGE_SIZE <= WORD_RANGE && a < n * PAGE_SIZE
    ensures base + a < WORD_RANGE && VirtToPage(base, n, base + a) == Descriptor(PageOf(a))
  {
    assert a == PageOf(a) * PAGE_SIZE + a % PAGE_SIZE;
    VirtToPageExactly(base, n, base + a, PageOf(a));
  }
}
