// kmem_cache and kmalloc of mm/mem.c, in place on the page descriptors, the heap's
// memory and the cache records.
module KernelHeaps {
  import opened Common
  import opened Powers
  import opened BuddySpec
  import opened BuddyLinks
  import opened BuddyTheorems
  import opened BuddyRuns
  import opened PagePools
  import opened SlabSpec
  import opened SlabSteps
  import opened SlabRep
  import opened KmallocRuns

  class KernelHeap {
    const pages: PagePool
    // mem[a] is the 32-bit word at byte offset a of the paged area.
    const mem: array<int>
    const caches: array<KmemCache>
    // The cachep field of each struct page.
    const cachep: array<int>
    ghost var view: Heap
    ghost var recs: seq<KmemCache>
    ghost var cells: seq<int>

    ghost predicate Wired() {
      && pages.Wired() && mem.Length == pages.n * PAGE_SIZE && cachep.Length == pages.n
      && mem != cachep
      && mem !in {pages.order, pages.next, pages.prev} && cachep !in {pages.order, pages.next, pages.prev}
    }

    ghost predicate Tied()
      reads this, pages, pages.order, pages.busy, pages.dirty, pages.next, pages.prev, mem, caches, cachep
    {
      && Wired() && pages.Valid() && view.pool == pages.pool
      && recs == caches[..] && cells == mem[..] && view.owner == cachep[..]
    }

    ghost predicate Valid()
      reads this, pages, pages.order, pages.busy, pages.dirty, pages.next, pages.prev, mem, caches, cachep
    {
      Tied() && HeapInv(view) && Rep(view, recs, cells, pages.nx)
    }

    // The caches of boot time: kmalloc_cache is all zeroes.
    constructor (pool: PagePool, slots: nat)
      requires pool.Valid() && pool.pool == Init(pool.n)
      ensures Valid() && view == Boot(pool.n, slots) && pages == pool
    {
      pages := pool;
      mem := new int[pool.n * PAGE_SIZE];
      caches := new KmemCache[slots](_ => KmemCache(0, 0, 0, NULL, NULL, NULL));
      cachep := new int[pool.n](_ => NULL);
      new;
      view := Boot(pool.n, slots);
      recs, cells := caches[..], mem[..];
      assert cachep[..] == view.owner;
      BootInv(pool.n, slots);
      LinkCount(pages.pool, pages.nx, pages.pv);
    }

    // ---------- formatting ----------

    // kmem_cache_line_object: threads the free list through the slab at page x.
    method LineObject(x: int, size: nat, order: nat) returns (count: nat)
      requires cells == mem[..] && 0 <= x && x * PAGE_SIZE + SlabBytes(order) <= |cells|
      requires size <= SlabBytes(order) && Formattable(size, SlabBytes(order))
      modifies this`cells, mem
      ensures cells == mem[..] && WritesInBlock(old(cells), cells, x, order)
      ensures var s := Objects(x * PAGE_SIZE, size, x * PAGE_SIZE + SlabBytes(order));
        count == |s| && Chained(cells, s)
        && WritesAt(old(cells), cells, s + [LastNode(x * PAGE_SIZE, size, x * PAGE_SIZE + SlabBytes(order))])
    {
      ghost var start, end := x * PAGE_SIZE, x * PAGE_SIZE + SlabBytes(order);
      ghost var done: seq<int> := [];
      ghost var cells0 := cells;
      var pl := x * PAGE_SIZE;
      var p := pl + size;
      var s := SlabBytes(order);
      count := 0;
      LinksInsideExactly(start, size, end);
      LastNodeFrom(start, size, end);
      hide WritesInBlock, WritesAt, Chained, Objects, LastNode, Formattable;
      FormatStart(cells, start, x, order);
      while s > size
        invariant cells == mem[..] && WritesInBlock(cells0, cells, x, order) && |cells| == |cells0|
        invariant 0 <= s && pl == end - s && p == pl + size && start <= pl && pl + WORD <= end
        invariant LastNode(pl, size, end) == LastNode(start, size, end)
        invariant |done| == count && Objects(start, size, end) == done + Objects(pl, size, end)
        invariant WritesAt(cells0, cells, done + [pl])
        invariant Chained(cells, done + [pl]) && forall i | 0 <= i < |done| :: done[i] < pl
        decreases s
      {
        ghost var before := cells;
        LastNodeFrom(p, size, end);
        FormatTurn(cells0, before, x, order, start, pl, p, size, end, done);
        WriteWord(pl, p);
        done := done + [pl];
        pl := p;
        WriteWord(pl, NULL);
        p := p + size;
        s := s - size;
        count := count + 1;
      }
      FormatEnd(cells0, cells, x, order, start, pl, size, end, done);
      if s == size {
        WriteWord(pl, NULL);
        count := count + 1;
      }
    }

    // ---------- one cache ----------

    method FindRightOrder(size: nat) returns (order: int)
      ensures order == RightOrder(size)
    {
      order := 0;
      while order <= CACHE_MAX_ORDER
        invariant 0 <= order <= CACHE_MAX_ORDER + 1 && OrderFrom(size, order) == RightOrder(size)
      {
        if size <= MAX_WASTE * Pow2(order) {
          return;
        }
        order := order + 1;
      }
      Pow2Small();
      if size > Pow2(order) {
        order := -1;
      }
    }

    // alloc_pages for a further slab, whose last page is chained behind the page `end`.
    method NewSlab(order: nat, end: int, ghost last: int) returns (pg: int, ghost nx1: seq<int>)
      requires pages.Valid() && Live(pages.pool, last)
      requires pages.pool.order[last] == order && end == BuddyEnd(last, order)
      modifies pages`pool, pages`nx, pages`pv, pages.order, pages.busy, pages.dirty, pages.next, pages.prev
      ensures pages.Valid()
      ensures BuddySpec.AllocPages(old(pages.pool), order).None? ==>
        pg == NULL && pages.pool == old(pages.pool) && pages.nx == old(pages.nx)
      ensures BuddySpec.AllocPages(old(pages.pool), order).Some? ==>
        && BuddySpec.AllocPages(old(pages.pool), order) == Some((pages.pool, pg))
        && 0 <= pg && pg + Pow2(order) <= pages.n
        && BusyEndsKept(old(pages.pool), old(pages.nx), nx1) && |nx1| == |old(pages.nx)|
        && 0 <= end < |nx1| && BuddyEnd(pg, order) < |nx1|
        && pages.nx == nx1[end := pg][BuddyEnd(pg, order) := NULL]
    {
      ghost var p := pages.pool;
      hide Inv, Linked, BusyEndsKept, BuddySpec.AllocPages;
      pg := pages.AllocPages(order);
      nx1 := pages.nx;
      if pg == NULL {
        return;
      }
      AllocKept(p, order, pages.pool, pg, last);
      pages.SetEndNext(end, pg, last);
      pages.SetEndNext(BuddyEnd(pg, order), NULL, pg);
    }

    // Takes one more slab for cache i, whose free objects have run out.
    method Grow(i: nat) returns (ok: bool)
      requires Valid() && i < caches.Length && view.caches[i].size > 0 && view.caches[i].avail == []
      modifies this`view, this`recs, this`cells, mem, caches
      modifies pages`pool, pages`nx, pages`pv, pages.order, pages.busy, pages.dirty, pages.next, pages.prev
      ensures Valid()
      ensures ok <==> Refill(old(view), i).Some?
      ensures !ok ==> view == old(view) && cells == old(cells)
      ensures ok ==> view == Refill(old(view), i).value
      ensures Untouched(old(view), old(cells), cells, -1)
    {
      ghost var h, cells0, nx0, c := view, cells, pages.nx, view.caches[i];
      ghost var last := c.slabs[|c.slabs| - 1];
      GrowReady(h, i, recs, cells, nx0);
      hide HeapInv, Rep, CacheInv, RecordOk, Untouched, Sound, Inv, Linked, BusyEndsKept, WritesInBlock, Chained;
      hide BuddySpec.AllocPages, Objects, Refill, Head, Formattable;
      var k := caches[i];
      ghost var nx1;
      var pg;
      pg, nx1 := NewSlab(k.pageOrder, k.endPage, last);
      ok := pg != NULL;
      if ok {
        Adopt(i, pg, h, nx0, nx1);
      }
    }

    // Formats the block pg and makes it the newest slab of cache i.
    method Adopt(i: nat, pg: int, ghost h: Heap, ghost nx0: seq<int>, ghost nx1: seq<int>)
      requires Wired() && pages.Valid() && recs == caches[..] && cells == mem[..] && view == h && h.owner == cachep[..]
      requires HeapInv(h) && i < caches.Length && Rep(h, recs, cells, nx0)
      requires var c := h.caches[i];
        && c.size > 0 && c.avail == [] && c.size <= SlabBytes(c.order) && Formattable(c.size, SlabBytes(c.order))
        && BuddySpec.AllocPages(h.pool, c.order) == Some((pages.pool, pg))
        && 0 <= pg && pg + Pow2(c.order) <= pages.n
        && recs[i].objSize == c.size && recs[i].pageOrder == c.order && recs[i].objNr == 0
        && BusyEndsKept(h.pool, nx0, nx1) && |nx1| == |nx0|
        && 0 <= recs[i].endPage < |nx1| && BuddyEnd(pg, c.order) < |nx1|
        && pages.nx == nx1[recs[i].endPage := pg][BuddyEnd(pg, c.order) := NULL]
      modifies this`view, this`recs, this`cells, mem, caches
      ensures Valid() && Refill(h, i) == Some(view) && Untouched(h, old(cells), cells, -1)
    {
      ghost var cells0, nx := cells, pages.nx;
      hide HeapInv, Rep, Untouched, Inv, Linked, BusyEndsKept, WritesInBlock, Chained;
      hide BuddySpec.AllocPages, Objects, Refill, Formattable;
      var k := caches[i];
      SlabFits(pg, k.pageOrder, pages.n);
      var nr := LineObject(pg, k.objSize, k.pageOrder);
      ghost var g := GrowDone(h, i, pages.pool, pg, recs, cells0, cells, nx0, nx1);
      k := k.(objNr := k.objNr + nr, nfBlock := pg * PAGE_SIZE, endPage := BuddyEnd(pg, k.pageOrder));
      SetCache(i, k, g);
    }

    // Stores the record of cache i, which makes the heap g.
    method SetCache(i: nat, k: KmemCache, ghost g: Heap)
      requires Wired() && pages.Valid() && recs == caches[..] && cells == mem[..] && i < caches.Length
      requires HeapInv(g) && g.pool == pages.pool && g.owner == cachep[..] && Rep(g, recs[i := k], cells, pages.nx)
      modifies this`view, this`recs, caches
      ensures Valid() && view == g
    {
      hide HeapInv, Rep, Inv, Linked;
      caches[i] := k;
      view, recs := g, recs[i := k];
    }

    method KmemCacheAlloc(i: nat) returns (p: int)
      requires Valid() && i < caches.Length && view.caches[i].size > 0
      modifies this`view, this`recs, this`cells, mem, caches, cachep
      modifies pages`pool, pages`nx, pages`pv, pages.order, pages.busy, pages.dirty, pages.next, pages.prev
      ensures Valid() && (view, p) == CacheAlloc(old(view), i)
      ensures Untouched(old(view), old(cells), cells, -1)
    {
      AllocReady(view, i, recs, cells, pages.nx);
      hide HeapInv, Rep, Untouched, Inv, Linked, Refill;
      if caches[i].objNr == 0 {
        var ok := Grow(i);
        if !ok {
          return NULL;
        }
      }
      p := PopObject(i);
    }

    // Hands out the first free object of cache i.
    method PopObject(i: nat) returns (p: int)
      requires Valid() && i < caches.Length && view.caches[i].avail != []
      modifies this`view, this`recs, caches, cachep
      ensures Valid() && (view, p) == TakeObject(old(view), i)
    {
      PopReady(view, i, recs, cells, pages.nx);
      TakeInv(view, i);
      hide HeapInv, Rep, Inv, Linked;
      p := caches[i].nfBlock;
      caches[i] := caches[i].(objNr := caches[i].objNr - 1, nfBlock := mem[p]);
      cachep[PageOf(p)] := i;
      view, recs := TakeObject(view, i).0, recs[i := caches[i]];
    }

    // Callers free objects that are live in the cache.
    method KmemCacheFree(i: nat, objp: int)
      requires Valid() && LiveObject(view, i, objp)
      modifies this`view, this`recs, this`cells, mem, caches
      ensures Valid() && view == CacheFree(old(view), i, objp)
      ensures Untouched(old(view), old(cells), cells, objp)
    {
      GiveReady(view, i, objp, recs, cells, pages.nx);
      FreeInv(view, i, objp);
      hide HeapInv, Rep, Inv, Linked, Untouched;
      WriteWord(objp, caches[i].nfBlock);
      caches[i] := caches[i].(objNr := caches[i].objNr + 1, nfBlock := objp);
      view, recs := CacheFree(view, i, objp), recs[i := caches[i]];
    }

    // The slot must be unused: creating over a live cache would lose its slabs.
    method KmemCacheCreate(i: nat, size: nat) returns (ok: bool)
      requires Valid() && i < caches.Length && view.caches[i].size == 0 && Creatable(size)
      modifies this`view, this`recs, this`cells, mem, caches
      modifies pages`pool, pages`nx, pages`pv, pages.order, pages.busy, pages.dirty, pages.next, pages.prev
      ensures Valid() && view == CreateCache(old(view), i, size)
      ensures ok ==> view.caches[i].size == size && size > 0
      ensures !ok ==> view == old(view)
      ensures Untouched(old(view), old(cells), cells, -1)
    {
      ghost var h, nx0 := view, pages.nx;
      RightOrderLeast(size);
      CreateReady(h, i, size, cells);
      hide HeapInv, Rep, Inv, Linked, BusyEndsKept;
      hide Untouched, BuddySpec.AllocPages, WritesInBlock, Chained, Sound, Formattable;
      var order := FindRightOrder(size);
      if order == -1 {
        return false;
      }
      var pg := pages.AllocPages(order);
      ok := pg != NULL;
      if ok {
        Found(i, size, order, pg, h, nx0);
      } else {
        UnusedRecord(h, i, recs, cells, nx0);
        SetCache(i, caches[i].(headPage := NULL), h);
      }
    }

    // Formats the block pg and makes it the first slab of a new cache i.
    method Found(i: nat, size: nat, order: nat, pg: int, ghost h: Heap, ghost nx0: seq<int>)
      requires Wired() && pages.Valid() && recs == caches[..] && cells == mem[..] && view == h && h.owner == cachep[..]
      requires HeapInv(h) && i < caches.Length && Rep(h, recs, cells, nx0) && |pages.nx| == |nx0|
      requires h.caches[i].size == 0 && Creatable(size) && RightOrder(size) == order
      requires Formattable(size, SlabBytes(order)) && size <= SlabBytes(order)
      requires BuddySpec.AllocPages(h.pool, order) == Some((pages.pool, pg)) && BusyEndsKept(h.pool, nx0, pages.nx)
      modifies this`view, this`recs, this`cells, mem, caches
      modifies pages`nx, pages.next
      ensures Valid() && view == CreateCache(h, i, size) && view.caches[i].size == size
      ensures Untouched(h, old(cells), cells, -1)
    {
      ghost var cells0, nx1 := cells, pages.nx;
      AllocFacts(h, order, pages.pool, pg, cells);
      hide HeapInv, Rep, Inv, Linked, BusyEndsKept, Untouched, BuddySpec.AllocPages, WritesInBlock, Chained, Sound;
      var nr := LineObject(pg, size, order);
      pages.SetEndNext(BuddyEnd(pg, order), NULL, pg);
      var k := KmemCache(size, nr, order, pg, BuddyEnd(pg, order), pg * PAGE_SIZE);
      CreateRep(h, i, size, order, pages.pool, pg, k, recs, cells0, cells, nx0, nx1);
      CreateInv(h, i, size);
      SetCache(i, k, CreateCache(h, i, size));
    }

    method KmemCacheDestroy(i: nat)
      requires Valid() && i < caches.Length && view.caches[i].size > 0
      modifies this`view
      modifies pages`pool, pages`nx, pages`pv, pages.order, pages.busy, pages.dirty, pages.next, pages.prev
      ensures Valid() && view == DestroyCache(old(view), i)
    {
      assert i < |view.caches|;
      hide HeapInv, Rep, Inv, Linked, DestroyCache;
      var k := caches[i];
      assert k == recs[i];
      ReleaseSlabs(i, k);
      view := DestroyCache(view, i);
    }

    method ReleaseSlabs(i: nat, k: KmemCache)
      requires pages.Valid() && HeapInv(view) && view.pool == pages.pool && Rep(view, recs, cells, pages.nx)
      requires i < |view.caches| && view.caches[i].size > 0 && k == recs[i]
      modifies pages`pool, pages`nx, pages`pv, pages.order, pages.busy, pages.dirty, pages.next, pages.prev
      ensures pages.Valid() && HeapInv(DestroyCache(view, i)) && Rep(DestroyCache(view, i), recs, cells, pages.nx)
      ensures DestroyCache(view, i).pool == pages.pool && DestroyCache(view, i).owner == view.owner
    {
      ghost var h, nx0 := view, pages.nx;
      hide HeapInv, Rep, Inv, Linked, Sound, FreeSlabs, DestroyCache, AllBusy, StillThere, Destroying;
      DestroyStart(pages, h, i, recs, cells);
      FreeChain(k.headPage, k.pageOrder, h, i, nx0);
      DestroyRep(h, i, pages.pool, recs, cells, nx0, pages.nx);
    }

    // Frees the slabs of cache i along their chain, which starts at pg0.
    method FreeChain(pg0: int, order: nat, ghost h: Heap, ghost i: nat, ghost nx0: seq<int>)
      requires Destroying(pages, h, i, 0, nx0) && pg0 == h.caches[i].slabs[0] && order == h.caches[i].order
      modifies pages`pool, pages`nx, pages`pv, pages.order, pages.busy, pages.dirty, pages.next, pages.prev
      ensures pages.Valid() && Shape(pages.pool) && |pages.nx| == |nx0|
      ensures Shape(h.pool) && Sound(h.pool) && AllBusy(h.pool, h.caches[i].slabs)
      ensures pages.pool == FreeSlabs(h.pool, h.caches[i].slabs)
      ensures StillThere(h.pool, pages.pool, h.caches[i].slabs, nx0, pages.nx)
    {
      ghost var slabs := h.caches[i].slabs;
      var pg := pg0;
      ghost var j := 0;
      hide HeapInv, Inv, Linked, Sound, FreeSlabs, AllBusy, StillThere, SlabChain;
      while true
        invariant Destroying(pages, h, i, j, nx0) && pg == slabs[j]
        decreases |slabs| - j
      {
        var list := DestroyOne(pg, order, h, i, j, nx0);
        if list == NULL {
          break;
        }
        pg := list;
        j := j + 1;
      }
      assert slabs[..j + 1] == slabs;
    }

    // Frees the j-th slab of cache i and returns the one chained after it.
    method DestroyOne(pg: int, order: nat, ghost h: Heap, ghost i: nat, ghost j: nat, ghost nx0: seq<int>)
      returns (list: int)
      requires Destroying(pages, h, i, j, nx0) && pg == h.caches[i].slabs[j] && order == h.caches[i].order
      modifies pages`pool, pages`nx, pages`pv, pages.order, pages.busy, pages.dirty, pages.next, pages.prev
      ensures pages.Valid() && Shape(pages.pool) && |pages.nx| == |nx0|
      ensures list != NULL ==> Destroying(pages, h, i, j + 1, nx0) && list == h.caches[i].slabs[j + 1]
      ensures list == NULL ==>
        && j + 1 == |h.caches[i].slabs| && Shape(h.pool) && AllBusy(h.pool, h.caches[i].slabs)
        && pages.pool == FreeSlabs(h.pool, h.caches[i].slabs)
        && StillThere(h.pool, pages.pool, h.caches[i].slabs[..j + 1], nx0, pages.nx)
    {
      ghost var p, nx := pages.pool, pages.nx;
      hide HeapInv, Rep, Inv, Linked, BusyEndsKept, Sound;
      hide FreeSlabs, DestroyCache, AllBusy, StillThere, SlabChain, BuddySpec.FreePages;
      DestroyTurn(h, i, p, nx0, nx, j);
      list := pages.next[BuddyEnd(pg, order)];
      pages.FreePages(pg, order);
      DestroyNext(h, i, p, pages.pool, nx0, nx, pages.nx, j);
      if list == NULL {
        DestroyEnd(pages.pool, h.caches[i].slabs, j + 1);
        SlabsBusy(h, i);
      }
    }

    // ---------- kmalloc ----------

    method KmallocInit() returns (ok: bool)
      requires Valid() && caches.Length == KMALLOC_CACHES && view == Boot(pages.n, KMALLOC_CACHES)
      modifies this`view, this`recs, this`cells, mem, caches
      modifies pages`pool, pages`nx, pages`pv, pages.order, pages.busy, pages.dirty, pages.next, pages.prev
      ensures Valid() && Unbuilt(old(view), 0) && (view, ok) == BootClasses(old(view), 0)
    {
      hide HeapInv, Rep, Inv, Linked, Creatable, Untouched, CreateCache, BootClasses;
      ghost var h0 := view;
      BootUnbuilt(pages.n);
      var i := 0;
      while i < KMALLOC_CACHES
        invariant i <= KMALLOC_CACHES && Valid() && Unbuilt(view, i)
        invariant BootClasses(view, i) == BootClasses(h0, 0)
      {
        ghost var h := view;
        BootClassesStep(h, i);
        ok := KmemCacheCreate(i, (i + 1) * KMALLOC_MIN);
        if !ok {
          return;
        }
        i := i + 1;
      }
      BootClassesStep(view, i);
      ok := true;
    }

    method Kmalloc(size: nat) returns (p: int)
      requires Valid() && caches.Length >= KMALLOC_CACHES && Booted(view) && size < WORD_RANGE
      modifies this`view, this`recs, this`cells, mem, caches, cachep
      modifies pages`pool, pages`nx, pages`pv, pages.order, pages.busy, pages.dirty, pages.next, pages.prev
      ensures Valid() && Allowed(old(view), Malloc(size)) && (view, p) == KmallocRuns.Kmalloc(old(view), size)
      ensures Untouched(old(view), old(cells), cells, -1)
    {
      AllUntouched(view, cells);
      hide HeapInv, Rep, Inv, Linked, Untouched, CacheAlloc;
      var index := (size + WORD_RANGE - 1) % WORD_RANGE / KMALLOC_MIN;
      if index >= KMALLOC_CACHES {
        return NULL;
      }
      p := KmemCacheAlloc(index);
    }

    method Kfree(addr: int)
      requires Valid() && LiveAt(view, addr)
      modifies this`view, this`recs, this`cells, mem, caches
      ensures Valid() && view == KmallocRuns.Kfree(old(view), addr)
      ensures Untouched(old(view), old(cells), cells, addr)
    {
      hide HeapInv, Rep, Inv, Linked, Untouched, CacheFree;
      KmemCacheFree(cachep[PageOf(addr)], addr);
    }

    // ---------- others that use pages and objects ----------

    // alloc_pages for others than the caches.
    method TakePages(o: nat) returns (pg: int)
      requires Valid()
      modifies this`view
      modifies pages`pool, pages`nx, pages`pv, pages.order, pages.busy, pages.dirty, pages.next, pages.prev
      ensures Valid()
      ensures BuddySpec.AllocPages(old(view).pool, o).None? ==> pg == NULL && view == old(view)
      ensures BuddySpec.AllocPages(old(view).pool, o).Some? ==>
        BuddySpec.AllocPages(old(view).pool, o) == Some((view.pool, pg)) && view == old(view).(pool := view.pool)
    {
      ghost var h, nx0 := view, pages.nx;
      hide HeapInv, Rep, Inv, Linked, BusyEndsKept, BuddySpec.AllocPages;
      pg := pages.AllocPages(o);
      if pg == NULL {
        return;
      }
      TakeRep(h, o, pages.pool, pg, recs, cells, nx0, pages.nx);
      view := h.(pool := pages.pool);
    }

    // free_pages for others: not for a slab of a cache.
    method GivePages(pg: int, o: nat)
      requires Valid() && Live(view.pool, pg) && view.pool.order[pg] == o && !IsSlab(view, pg)
      modifies this`view
      modifies pages`pool, pages`nx, pages`pv, pages.order, pages.busy, pages.dirty, pages.next, pages.prev
      ensures Valid() && view == old(view).(pool := BuddySpec.FreePages(old(view).pool, pg))
    {
      ghost var h, nx0 := view, pages.nx;
      hide HeapInv, Rep, Inv, Linked, BusyEndsKept, BuddySpec.FreePages;
      pages.FreePages(pg, o);
      GiveRep(h, pg, recs, cells, nx0, pages.nx);
      view := h.(pool := pages.pool);
    }

    // A client stores a word in an object it holds.
    method Store(i: nat, a: int, off: nat, v: int)
      requires Valid() && LiveObject(view, i, a) && off + WORD <= view.caches[i].size
      modifies this`cells, mem
      ensures Valid() && 0 <= a + off < |old(cells)| && cells == old(cells)[a + off := v]
      ensures Untouched(view, old(cells), cells, a)
    {
      StoreRep(view, i, a, recs, cells, pages.nx, a + off, v);
      hide HeapInv, Rep, Inv, Linked, Untouched;
      WriteWord(a + off, v);
    }

    // A client stores a word in pages it holds.
    method StorePage(b: int, off: nat, v: int)
      requires Valid() && Live(view.pool, b) && !IsSlab(view, b) && off + WORD <= SlabBytes(view.pool.order[b])
      modifies this`cells, mem
      ensures Valid() && 0 <= b * PAGE_SIZE + off < |old(cells)| && cells == old(cells)[b * PAGE_SIZE + off := v]
      ensures Untouched(view, old(cells), cells, -1)
    {
      StorePageRep(view, b, recs, cells, pages.nx, b * PAGE_SIZE + off, v);
      hide HeapInv, Rep, Inv, Linked, Untouched, IsSlab;
      WriteWord(b * PAGE_SIZE + off, v);
    }

    method WriteWord(a: int, v: int)
      requires cells == mem[..] && 0 <= a < |cells|
      modifies this`cells, mem
      ensures cells == mem[..] && cells == old(cells)[a := v]
    {
      mem[a] := v;
      cells := cells[a := v];
    }
  }

  lemma AllocKept(p: Pool, o: nat, r: Pool, x: int, last: int)
    requires Inv(p, -1) && BuddySpec.AllocPages(p, o) == Some((r, x)) && Live(p, last)
    ensures Inv(r, -1) && |r.order| == |p.order|
    ensures Live(r, x) && r.order[x] == o && x + Pow2(o) <= |r.order|
    ensures Live(r, last) && r.order[last] == p.order[last]
  {
    var g := Get(p, o).value.0;
    AllocTakesExactly(p, o, g, x);
    DirtyIrrelevant(g, r.dirty);
  }

  // What growing cache i relies on.
  lemma GrowReady(h: Heap, i: nat, recs: seq<KmemCache>, mem: seq<int>, nx: seq<int>)
    requires HeapInv(h) && i < |h.caches| && Rep(h, recs, mem, nx)
    requires h.caches[i].size > 0 && h.caches[i].avail == []
    ensures var c, k := h.caches[i], recs[i];
      && Shape(h.pool) && c.slabs != [] && (var last := c.slabs[|c.slabs| - 1];
         && Live(h.pool, last) && h.pool.order[last] == c.order
         && k.endPage == BuddyEnd(last, c.order))
      && k.pageOrder == c.order && k.objSize == c.size && k.objNr == 0
      && c.size <= SlabBytes(c.order) && Formattable(c.size, SlabBytes(c.order))
      && |mem| == |h.pool.order| * PAGE_SIZE
      && Untouched(h, mem, mem, -1)
      && (Refill(h, i).Some? <==> BuddySpec.AllocPages(h.pool, c.order).Some?)
  {
    var c := h.caches[i];
    assert CacheInv(h.pool, c) && RecordOk(recs[i], c, mem, nx);
    assert c.slabs[|c.slabs| - 1] in c.slabs;
  }

  lemma GrowDone(h: Heap, i: nat, r: Pool, x: int, recs: seq<KmemCache>,
                 mem: seq<int>, mem2: seq<int>, nx: seq<int>, nx1: seq<int>) returns (g: Heap)
    requires HeapInv(h) && i < |h.caches| && Rep(h, recs, mem, nx)
    requires var c := h.caches[i];
      && c.size > 0 && c.avail == [] && c.size <= SlabBytes(c.order)
      && BuddySpec.AllocPages(h.pool, c.order) == Some((r, x))
      && WritesInBlock(mem, mem2, x, c.order)
      && Chained(mem2, Objects(x * PAGE_SIZE, c.size, x * PAGE_SIZE + SlabBytes(c.order)))
    requires BusyEndsKept(h.pool, nx, nx1) && |nx| == |nx1|
    ensures var c, k := h.caches[i], recs[i];
      && 0 <= x && 0 <= k.endPage < |nx1| && BuddyEnd(x, c.order) < |nx1|
      && Refill(h, i) == Some(g) && HeapInv(g) && g.pool == r && g.owner == h.owner
      && Rep(g, recs[i := k.(objNr := |Objects(x * PAGE_SIZE, c.size, x * PAGE_SIZE + SlabBytes(c.order))|,
                             nfBlock := x * PAGE_SIZE, endPage := BuddyEnd(x, c.order))],
             mem2, nx1[k.endPage := x][BuddyEnd(x, c.order) := NULL])
      && Untouched(h, mem, mem2, -1)
  {
    hide HeapInv, Rep, Untouched, WritesInBlock, Chained;
    hide BusyEndsKept, SlabObjects, Objects, Refill, BuddySpec.AllocPages;
    var c := h.caches[i];
    SlabUsed(c, x);
    GrowRep(h, i, r, x, recs, mem, mem2, nx, nx1);
    RefillInv(h, i);
    RefillParts(h, i, r, x);
    g := Refill(h, i).value;
  }

  lemma RefillParts(h: Heap, i: nat, r: Pool, x: int)
    requires HeapInv(h) && i < |h.caches| && h.caches[i].size > 0 && h.caches[i].avail == []
    requires BuddySpec.AllocPages(h.pool, h.caches[i].order) == Some((r, x))
    ensures Refill(h, i).Some? && Refill(h, i).value.pool == r && Refill(h, i).value.owner == h.owner
  {
    hide HeapInv, BuddySpec.AllocPages, SlabObjects;
  }

  lemma SlabFits(x: int, order: nat, n: nat)
    requires 0 <= x && x + Pow2(order) <= n
    ensures x * PAGE_SIZE + SlabBytes(order) <= n * PAGE_SIZE
  {
  }

  lemma SlabUsed(c: Cache, x: int)
    requires 0 < c.size <= SlabBytes(c.order)
    ensures SlabObjects(c, x) == Objects(x * PAGE_SIZE, c.size, x * PAGE_SIZE + SlabBytes(c.order))
    ensures SlabObjects(c, x) != [] && SlabObjects(c, x)[0] == x * PAGE_SIZE
  {
  }

  lemma LinkCount(p: Pool, nx: seq<int>, pv: seq<int>)
    requires Inv(p, -1) && Linked(p, nx, pv)
    ensures |nx| == |p.order| + ORDER_NUM
  {
  }

  lemma FormatStart(mem: seq<int>, start: int, x: int, order: nat)
    requires 0 <= start < |mem|
    ensures WritesInBlock(mem, mem, x, order) && Chained(mem, [] + [start]) && WritesAt(mem, mem, [] + [start])
  {
  }

  // One turn of the formatting loop links the node at pl to the node at p.
  lemma FormatTurn(mem0: seq<int>, mem: seq<int>, x: int, order: nat,
                   start: int, pl: int, p: int, size: nat, end: int, done: seq<int>)
    requires size > 0 && start == x * PAGE_SIZE && end == start + SlabBytes(order) && 0 <= start && end <= |mem|
    requires WritesInBlock(mem0, mem, x, order) && Chained(mem, done + [pl]) && WritesAt(mem0, mem, done + [pl])
    requires start <= pl && p == pl + size < end && p + WORD <= end && pl + WORD <= end
    requires Objects(start, size, end) == done + Objects(pl, size, end) && forall i | 0 <= i < |done| :: done[i] < pl
    ensures Objects(start, size, end) == done + [pl] + Objects(p, size, end)
    ensures LastNode(pl, size, end) == LastNode(p, size, end)
    ensures WritesInBlock(mem0, mem[pl := p][p := NULL], x, order)
    ensures Chained(mem[pl := p][p := NULL], done + [pl] + [p])
    ensures WritesAt(mem0, mem[pl := p][p := NULL], done + [pl] + [p])
  {
    hide Chained, WritesInBlock, WritesAt, Objects, LastNode, SlabBytes;
    WroteAt(mem0, mem, done + [pl], pl, p, p);
    MoreObjects(start, pl, p, size, end, done);
    ChainOne(mem, done, pl, p);
    WroteNode(mem0, mem, x, order, pl, p);
    WroteNode(mem0, mem[pl := p], x, order, p, NULL);
  }

  lemma MoreObjects(start: int, pl: int, p: int, size: nat, end: int, done: seq<int>)
    requires size > 0 && p == pl + size < end && Objects(start, size, end) == done + Objects(pl, size, end)
    ensures Objects(start, size, end) == done + [pl] + Objects(p, size, end)
    ensures LastNode(pl, size, end) == LastNode(p, size, end)
  {
    assert Objects(pl, size, end) == [pl] + Objects(p, size, end);
    hide Objects;
    assert done + ([pl] + Objects(p, size, end)) == done + [pl] + Objects(p, size, end);
  }

  lemma WroteNode(mem0: seq<int>, mem: seq<int>, x: int, order: nat, a: int, v: int)
    requires WritesInBlock(mem0, mem, x, order) && 0 <= a < |mem|
    requires x * PAGE_SIZE <= a && a + WORD <= x * PAGE_SIZE + SlabBytes(order)
    ensures WritesInBlock(mem0, mem[a := v], x, order)
  {
  }

  lemma WroteAt(mem0: seq<int>, mem: seq<int>, s: seq<int>, pl: int, v: int, p: int)
    requires WritesAt(mem0, mem, s) && pl in s && 0 <= pl < |mem| && 0 <= p < |mem|
    ensures WritesAt(mem0, mem[pl := v][p := NULL], s + [p]) && WritesAt(mem0, mem[pl := v], s)
  {
  }

  lemma WroteEnd(mem0: seq<int>, mem: seq<int>, done: seq<int>, pl: int)
    requires WritesAt(mem0, mem, done + [pl]) && 0 <= pl < |mem|
    ensures WritesAt(mem0, mem, done + [pl] + [pl]) && WritesAt(mem0, mem[pl := NULL], done + [pl] + [pl])
  {
    var s := done + [pl];
    assert forall w :: w in s ==> w in s + [pl];
    assert pl in s;
  }

  // The node reached last is a whole object or the rest of the slab.
  lemma FormatEnd(mem0: seq<int>, mem: seq<int>, x: int, order: nat,
                  start: int, pl: int, size: nat, end: int, done: seq<int>)
    requires size > 0 && start == x * PAGE_SIZE && end == start + SlabBytes(order) && 0 <= start && end <= |mem|
    requires WritesInBlock(mem0, mem, x, order) && Chained(mem, done + [pl]) && WritesAt(mem0, mem, done + [pl])
    requires start <= pl && end <= pl + size && pl + WORD <= end
    requires Objects(start, size, end) == done + Objects(pl, size, end) && forall i | 0 <= i < |done| :: done[i] < pl
    ensures LastNode(pl, size, end) == pl
    ensures end == pl + size ==>
      && Objects(start, size, end) == done + [pl]
      && WritesAt(mem0, mem[pl := NULL], done + [pl] + [pl])
      && WritesInBlock(mem0, mem[pl := NULL], x, order) && Chained(mem[pl := NULL], done + [pl])
    ensures end < pl + size ==> Objects(start, size, end) == done && Chained(mem, done)
  {
    hide Chained, WritesInBlock, WritesAt;
    WroteEnd(mem0, mem, done, pl);
    if end == pl + size {
      assert Objects(pl, size, end) == [pl] + Objects(pl + size, size, end);
      WroteNode(mem0, mem, x, order, pl, NULL);
      ChainLast(mem, done, pl);
    } else {
      assert Objects(pl, size, end) == [] && done + [] == done;
      ChainShort(mem, done, pl);
    }
  }

  lemma ChainOne(mem: seq<int>, done: seq<int>, pl: int, p: int)
    requires Chained(mem, done + [pl]) && 0 <= pl < p < |mem| && forall i | 0 <= i < |done| :: done[i] < pl
    ensures Chained(mem[pl := p][p := NULL], done + [pl] + [p])
  {
    var m, s := mem[pl := p][p := NULL], done + [pl] + [p];
    forall i | 0 <= i < |s| - 1
      ensures m[s[i]] == s[i + 1]
    {
      if i < |done| {
        assert s[i] == (done + [pl])[i] && s[i + 1] == (done + [pl])[i + 1];
      }
    }
    forall i | 0 <= i < |s|
      ensures 0 <= s[i] < |m|
    {
      if i <= |done| { assert s[i] == (done + [pl])[i]; }
    }
  }

  lemma ChainLast(mem: seq<int>, done: seq<int>, pl: int)
    requires Chained(mem, done + [pl]) && 0 <= pl < |mem| && forall i | 0 <= i < |done| :: done[i] < pl
    ensures Chained(mem[pl := NULL], done + [pl])
  {
    var s := done + [pl];
    assert forall i | 0 <= i < |done| :: s[i] == done[i];
  }

  lemma ChainShort(mem: seq<int>, done: seq<int>, pl: int)
    requires Chained(mem, done + [pl])
    ensures Chained(mem, done)
  {
    var s := done + [pl];
    assert forall i | 0 <= i < |done| :: s[i] == done[i];
  }

  lemma AllocReady(h: Heap, i: nat, recs: seq<KmemCache>, mem: seq<int>, nx: seq<int>)
    requires HeapInv(h) && i < |h.caches| && Rep(h, recs, mem, nx) && h.caches[i].size > 0
    ensures recs[i].objNr == |h.caches[i].avail| && Untouched(h, mem, mem, -1)
    ensures h.caches[i].avail != [] ==> Refill(h, i) == Some(h)
    ensures Refill(h, i).Some? ==> Refill(h, i).value.caches[i].avail != []
    ensures CacheAlloc(h, i) == if Refill(h, i).None? then (h, NULL) else
      (RefillInv(h, i); TakeObject(Refill(h, i).value, i))
  {
    assert RecordOk(recs[i], h.caches[i], mem, nx);
    RefillInv(h, i);
  }

  lemma PopReady(h: Heap, i: nat, recs: seq<KmemCache>, mem: seq<int>, nx: seq<int>)
    requires HeapInv(h) && i < |h.caches| && Rep(h, recs, mem, nx) && h.caches[i].avail != []
    ensures var k, a := recs[i], h.caches[i].avail[0];
      && k.objNr > 0 && k.nfBlock == a && 0 <= a < |mem| && 0 <= PageOf(a) < |h.owner|
      && Rep(TakeObject(h, i).0, recs[i := k.(objNr := k.objNr - 1, nfBlock := mem[a])], mem, nx)
  {
    var c, k := h.caches[i], recs[i];
    assert CacheInv(h.pool, c) && RecordOk(k, c, mem, nx);
    TakeRecord(k, c, mem, nx);
    assert c.avail[0] in c.avail;
    assert IsObject(c, c.avail[0]);
    PageInPool(h, i, c.avail[0]);
    hide RecordOk, HeapInv;
  }

  lemma GiveReady(h: Heap, i: nat, a: int, recs: seq<KmemCache>, mem: seq<int>, nx: seq<int>)
    requires HeapInv(h) && LiveObject(h, i, a) && Rep(h, recs, mem, nx)
    ensures 0 <= a < |mem|
    ensures Rep(CacheFree(h, i, a), recs[i := recs[i].(objNr := recs[i].objNr + 1, nfBlock := a)],
                mem[a := recs[i].nfBlock], nx)
    ensures Untouched(h, mem, mem[a := recs[i].nfBlock], a)
  {
    var c, k := h.caches[i], recs[i];
    assert CacheInv(h.pool, c) && RecordOk(k, c, mem, nx);
    assert IsObject(c, a);
    PageInPool(h, i, a);
    assert a < |mem|;
    var mem2 := mem[a := k.nfBlock];
    GiveRecord(k, c, a, mem, nx);
    LiveInMemory(h, i, a);
    forall j | 0 <= j < |h.caches|
      ensures RecordOk(recs[j], h.caches[j], mem2, nx) && ObjectsKept(h.caches[j], mem, mem2, a)
    {
      WriteInside(h, i, a, j, recs, mem, nx, a, k.nfBlock);
    }
    hide RecordOk, HeapInv, CacheInv;
  }

  // A word written inside the live object a touches no free list and no other object.
  lemma WriteInside(h: Heap, i: nat, a: int, j: nat, recs: seq<KmemCache>, mem: seq<int>, nx: seq<int>, w: int, v: int)
    requires HeapInv(h) && LiveObject(h, i, a) && j < |h.caches| && Rep(h, recs, mem, nx) && 0 <= w < |mem|
    requires a <= w && w + WORD <= a + h.caches[i].size
    ensures RecordOk(recs[j], h.caches[j], mem[w := v], nx) && ObjectsKept(h.caches[j], mem, mem[w := v], a)
  {
    var c, d := h.caches[i], h.caches[j];
    assert CacheInv(h.pool, c) && CacheInv(h.pool, d) && RecordOk(recs[j], d, mem, nx);
    assert IsObject(c, a);
    forall b | (b in d.live || b in d.avail) && b != a
      ensures a + c.size <= b || b + d.size <= a
    {
      assert IsObject(d, b);
      ObjectsApart(h, i, a, j, b);
    }
    ApartFromFree(h, i, a, j);
    hide HeapInv;
    RecordFrame(recs[j], d, mem, nx, mem[w := v], nx);
  }

  // A live object is on no free list, of its cache or another.
  lemma ApartFromFree(h: Heap, i: nat, a: int, j: nat)
    requires HeapInv(h) && LiveObject(h, i, a) && j < |h.caches|
    ensures a !in h.caches[j].avail
  {
    var c, d := h.caches[i], h.caches[j];
    assert CacheInv(h.pool, c) && CacheInv(h.pool, d);
    if a in d.avail {
      assert IsObject(c, a) && IsObject(d, a);
      if i != j {
        ObjectsApart(h, i, a, j, a);
      }
      assert false;
    }
  }

  // A live object lies in memory, and has room for a link.
  lemma LiveInMemory(h: Heap, i: nat, a: int)
    requires HeapInv(h) && LiveObject(h, i, a)
    ensures 0 <= a && a + h.caches[i].size <= |h.pool.order| * PAGE_SIZE && WORD <= h.caches[i].size
  {
    var c := h.caches[i];
    assert CacheInv(h.pool, c) && IsObject(c, a);
    var s :| s in c.slabs && a in SlabObjects(c, s);
    ObjectInSlab(c, s, a);
    assert BlockAt(h.pool.order, s);
    SlabFits(s, c.order, |h.pool.order|);
  }

  // ---------- pages and stores of others ----------

  lemma TakeRep(h: Heap, o: nat, r: Pool, x: int, recs: seq<KmemCache>, mem: seq<int>, nx: seq<int>, nx1: seq<int>)
    requires HeapInv(h) && Rep(h, recs, mem, nx) && BuddySpec.AllocPages(h.pool, o) == Some((r, x))
    requires BusyEndsKept(h.pool, nx, nx1) && |nx1| == |nx|
    ensures HeapInv(h.(pool := r)) && Rep(h.(pool := r), recs, mem, nx1)
  {
    AllocBlock(h.pool, o, r, x);
    NoSlabNull(h);
    PoolInv(h, r, -1);
    forall i | 0 <= i < |recs| ensures RecordOk(recs[i], h.caches[i], mem, nx1) {
      RecordOf(h, i, recs, mem, nx);
      EndsSurvive(h.pool, r, recs[i], h.caches[i], mem, nx, nx1);
    }
    hide HeapInv, RecordOk, BuddySpec.AllocPages, BusyEndsKept;
  }

  lemma GiveRep(h: Heap, b: int, recs: seq<KmemCache>, mem: seq<int>, nx: seq<int>, nx1: seq<int>)
    requires HeapInv(h) && Rep(h, recs, mem, nx) && Live(h.pool, b) && !IsSlab(h, b)
    requires BusyEndsKept(BuddySpec.FreePages(h.pool, b), nx, nx1) && |nx1| == |nx|
    ensures var r := BuddySpec.FreePages(h.pool, b); HeapInv(h.(pool := r)) && Rep(h.(pool := r), recs, mem, nx1)
  {
    var r := BuddySpec.FreePages(h.pool, b);
    FreeBlock(h.pool, b);
    PoolInv(h, r, b);
    forall i | 0 <= i < |recs| ensures RecordOk(recs[i], h.caches[i], mem, nx1) {
      RecordOf(h, i, recs, mem, nx);
      CacheKept(h.pool, r, b, h.caches[i]);
      EndsSurvive(r, r, recs[i], h.caches[i], mem, nx, nx1);
    }
    hide HeapInv, RecordOk, BuddySpec.FreePages, BusyEndsKept;
  }

  lemma StoreRep(h: Heap, i: nat, a: int, recs: seq<KmemCache>, mem: seq<int>, nx: seq<int>, w: int, v: int)
    requires HeapInv(h) && LiveObject(h, i, a) && Rep(h, recs, mem, nx)
    requires a <= w && w + WORD <= a + h.caches[i].size
    ensures 0 <= w < |mem| && Rep(h, recs, mem[w := v], nx) && Untouched(h, mem, mem[w := v], a)
  {
    LiveInMemory(h, i, a);
    forall j | 0 <= j < |recs|
      ensures RecordOk(recs[j], h.caches[j], mem[w := v], nx) && ObjectsKept(h.caches[j], mem, mem[w := v], a)
    {
      WriteInside(h, i, a, j, recs, mem, nx, w, v);
    }
    hide HeapInv, RecordOk, ObjectsKept;
  }

  lemma StorePageRep(h: Heap, b: int, recs: seq<KmemCache>, mem: seq<int>, nx: seq<int>, w: int, v: int)
    requires HeapInv(h) && Rep(h, recs, mem, nx) && Live(h.pool, b) && !IsSlab(h, b)
    requires b * PAGE_SIZE <= w && w + WORD <= b * PAGE_SIZE + SlabBytes(h.pool.order[b])
    ensures 0 <= w < |mem| && Rep(h, recs, mem[w := v], nx) && Untouched(h, mem, mem[w := v], -1)
  {
    assert BlockAt(h.pool.order, b);
    SlabFits(b, h.pool.order[b], |h.pool.order|);
    forall j | 0 <= j < |recs|
      ensures RecordOk(recs[j], h.caches[j], mem[w := v], nx) && ObjectsKept(h.caches[j], mem, mem[w := v], -1)
    {
      RecordOf(h, j, recs, mem, nx);
      hide HeapInv;
      FormatElsewhere(h.pool, recs[j], h.caches[j], b, mem, mem[w := v], nx);
    }
    hide HeapInv, RecordOk, ObjectsKept;
  }

  // ---------- creating ----------

  // The record of an unused slot may hold anything.
  lemma UnusedRecord(h: Heap, i: nat, recs: seq<KmemCache>, mem: seq<int>, nx: seq<int>)
    requires Rep(h, recs, mem, nx) && i < |h.caches| && h.caches[i].size == 0
    ensures i < |recs| && Rep(h, recs[i := recs[i].(headPage := NULL)], mem, nx)
  {
    hide RecordOk;
    forall j | 0 <= j < |recs|
      ensures RecordOk(recs[i := recs[i].(headPage := NULL)][j], h.caches[j], mem, nx)
    {
      if j == i { UnusedOk(recs[i].(headPage := NULL), h.caches[i], mem, nx); }
    }
  }

  lemma UnusedOk(k: KmemCache, c: Cache, mem: seq<int>, nx: seq<int>)
    requires c.size == 0
    ensures RecordOk(k, c, mem, nx)
  {
  }

  lemma CreateReady(h: Heap, i: nat, size: nat, mem: seq<int>)
    requires HeapInv(h) && i < |h.caches| && Creatable(size)
    ensures Untouched(h, mem, mem, -1)
    ensures RightOrder(size) == -1 ==> CreateCache(h, i, size) == h
    ensures RightOrder(size) >= 0 ==>
      && Formattable(size, SlabBytes(RightOrder(size))) && size <= SlabBytes(RightOrder(size)) && size > 0
      && (BuddySpec.AllocPages(h.pool, RightOrder(size)).None? ==> CreateCache(h, i, size) == h)
  {
    RightOrderLeast(size);
  }

  lemma AllocFacts(h: Heap, o: nat, r: Pool, x: int, mem: seq<int>)
    requires HeapInv(h) && BuddySpec.AllocPages(h.pool, o) == Some((r, x)) && |mem| == |h.pool.order| * PAGE_SIZE
    ensures Sound(r) && Live(r, x) && r.order[x] == o && |r.order| == |h.pool.order|
    ensures 0 <= x && x + Pow2(o) <= |r.order| && x * PAGE_SIZE + SlabBytes(o) <= |mem|
  {
    AllocBlock(h.pool, o, r, x);
    SlabFits(x, o, |r.order|);
  }

  lemma CreateRep(h: Heap, i: nat, size: nat, o: nat, r: Pool, x: int, k: KmemCache, recs: seq<KmemCache>,
                  mem: seq<int>, mem2: seq<int>, nx: seq<int>, nx1: seq<int>)
    requires HeapInv(h) && i < |h.caches| && Rep(h, recs, mem, nx) && |nx1| == |nx|
    requires h.caches[i].size == 0 && RightOrder(size) == o && 0 < size <= SlabBytes(o)
    requires BuddySpec.AllocPages(h.pool, o) == Some((r, x)) && BusyEndsKept(h.pool, nx, nx1)
    requires WritesInBlock(mem, mem2, x, o) && 0 <= x && BuddyEnd(x, o) < |nx1|
    requires var s := Objects(x * PAGE_SIZE, size, x * PAGE_SIZE + SlabBytes(o));
      Chained(mem2, s) && k == KmemCache(size, |s|, o, x, BuddyEnd(x, o), x * PAGE_SIZE)
    ensures Rep(CreateCache(h, i, size), recs[i := k], mem2, nx1[BuddyEnd(x, o) := NULL])
    ensures CreateCache(h, i, size).pool == r && CreateCache(h, i, size).owner == h.owner
    ensures CreateCache(h, i, size).caches[i].size == size
    ensures Untouched(h, mem, mem2, -1)
  {
    assert |r.order| == |h.pool.order| by { AllocBlock(h.pool, o, r, x); }
    assert CreateCache(h, i, size) == h.(pool := r, caches := h.caches[i := FreshCache(size, o, x)]);
    forall j | 0 <= j < |h.caches| && j != i
      ensures RecordOk(recs[j], h.caches[j], mem2, nx1[BuddyEnd(x, o) := NULL])
      ensures ObjectsKept(h.caches[j], mem, mem2, -1)
    {
      CreateOther(h, i, j, o, r, x, recs, mem, mem2, nx, nx1);
    }
    assert CacheInv(h.pool, h.caches[i]);
    FoundRecord(k, size, o, x, mem2, nx1);
    hide HeapInv, RecordOk, CacheInv, WritesInBlock, Chained, BusyEndsKept, CreateCache;
  }

  lemma FoundRecord(k: KmemCache, size: nat, o: nat, x: int, mem: seq<int>, nx: seq<int>)
    requires 0 < size <= SlabBytes(o) && 0 <= x && BuddyEnd(x, o) < |nx|
    requires var s := Objects(x * PAGE_SIZE, size, x * PAGE_SIZE + SlabBytes(o));
      Chained(mem, s) && k == KmemCache(size, |s|, o, x, BuddyEnd(x, o), x * PAGE_SIZE)
    ensures RecordOk(k, FreshCache(size, o, x), mem, nx[BuddyEnd(x, o) := NULL])
  {
  }

  lemma CreateOther(h: Heap, i: nat, j: nat, o: nat, r: Pool, x: int, recs: seq<KmemCache>,
                    mem: seq<int>, mem2: seq<int>, nx: seq<int>, nx1: seq<int>)
    requires HeapInv(h) && i < |h.caches| && j < |h.caches| && j != i && Rep(h, recs, mem, nx) && |nx1| == |nx|
    requires BuddySpec.AllocPages(h.pool, o) == Some((r, x)) && BusyEndsKept(h.pool, nx, nx1)
    requires WritesInBlock(mem, mem2, x, o) && 0 <= BuddyEnd(x, o) < |nx1|
    ensures RecordOk(recs[j], h.caches[j], mem2, nx1[BuddyEnd(x, o) := NULL])
    ensures ObjectsKept(h.caches[j], mem, mem2, -1)
  {
    var d := h.caches[j];
    assert CacheInv(h.pool, d) && RecordOk(recs[j], d, mem, nx);
    AllocBlock(h.pool, o, r, x);
    NewSlabApart(h, i, j, x);
    assert x in h.caches[i].slabs + [x];
    CacheKept(h.pool, r, -1, d);
    EndsSurvive(h.pool, r, recs[j], d, mem, nx, nx1);
    hide HeapInv, CacheInv, RecordOk, WritesInBlock, BusyEndsKept, DirtyExact, Inv;
    EndWriteElsewhere(r, recs[j], d, mem, nx1, x, BuddyEnd(x, o), NULL);
    FormatElsewhere(r, recs[j], d, x, mem, mem2, nx1[BuddyEnd(x, o) := NULL]);
  }

  // ---------- destroying ----------

  // Busy blocks of p other than those in `gone` are busy in r with the same order, and
  // their last pages hold the same next link.
  ghost predicate StillThere(p: Pool, r: Pool, gone: seq<int>, nx: seq<int>, nx2: seq<int>)
    requires Shape(p) && Shape(r)
  {
    && |r.order| == |p.order|
    && |nx| == |nx2|
    && forall b {:trigger Live(p, b)} | Live(p, b) && b !in gone && b + Pow2(p.order[b]) <= |nx| ::
         && Live(r, b) && r.order[b] == p.order[b]
         && nx2[BuddyEnd(b, p.order[b])] == nx[BuddyEnd(b, p.order[b])]
  }

  // The state of a destruction with the slabs from the j-th on still to be freed.
  ghost predicate Destroying(pages: PagePool, h: Heap, i: nat, j: nat, nx0: seq<int>)
    reads pages, pages.order, pages.busy, pages.dirty, pages.next, pages.prev
  {
    && pages.Valid() && HeapInv(h) && i < |h.caches| && h.caches[i].size > 0 && j < |h.caches[i].slabs|
    && Sound(pages.pool) && |pages.nx| == |nx0| == |h.pool.order| + ORDER_NUM && |pages.pool.order| == |h.pool.order|
    && SlabChain(nx0, h.caches[i].slabs, Pow2(h.caches[i].order))
    && AllBusy(pages.pool, h.caches[i].slabs[j..]) && Shape(h.pool)
    && AllBusy(h.pool, h.caches[i].slabs) && Sound(h.pool)
    && FreeSlabs(pages.pool, h.caches[i].slabs[j..]) == FreeSlabs(h.pool, h.caches[i].slabs)
    && StillThere(h.pool, pages.pool, h.caches[i].slabs[..j], nx0, pages.nx)
  }

  lemma DestroyStart(pages: PagePool, h: Heap, i: nat, recs: seq<KmemCache>, mem: seq<int>)
    requires pages.Valid() && HeapInv(h) && h.pool == pages.pool && Rep(h, recs, mem, pages.nx)
    requires i < |h.caches| && h.caches[i].size > 0
    ensures Destroying(pages, h, i, 0, pages.nx)
    ensures recs[i].headPage == h.caches[i].slabs[0] && recs[i].pageOrder == h.caches[i].order
  {
    DestroyReady(h, i, recs, mem, pages.nx);
    assert h.caches[i].slabs[0..] == h.caches[i].slabs;
    hide HeapInv, Inv, Linked, Sound, FreeSlabs, AllBusy, StillThere, SlabChain;
  }

  lemma DestroyEnd(p: Pool, slabs: seq<int>, j: nat)
    requires Sound(p) && j == |slabs| && AllBusy(p, slabs[j..])
    ensures FreeSlabs(p, slabs[j..]) == p
  {
    assert slabs[j..] == [];
  }

  lemma DestroyReady(h: Heap, i: nat, recs: seq<KmemCache>, mem: seq<int>, nx: seq<int>)
    requires HeapInv(h) && i < |h.caches| && Rep(h, recs, mem, nx) && h.caches[i].size > 0
    ensures Sound(h.pool) && Shape(h.pool)
    ensures var c, k := h.caches[i], recs[i];
      && k.pageOrder == c.order && c.slabs != [] && k.headPage == c.slabs[0] && AllBusy(h.pool, c.slabs[0..])
      && FreeSlabs(h.pool, c.slabs[0..]) == FreeSlabs(h.pool, c.slabs)
      && (forall m | 0 <= m < |c.slabs| :: Live(h.pool, c.slabs[m]) && h.pool.order[c.slabs[m]] == c.order)
      && SlabChain(nx, c.slabs, Pow2(c.order))
      && StillThere(h.pool, h.pool, c.slabs[..0], nx, nx)
  {
    assert CacheInv(h.pool, h.caches[i]) && RecordOk(recs[i], h.caches[i], mem, nx);
    assert h.caches[i].slabs[0..] == h.caches[i].slabs;
    SlabsBusy(h, i);
  }

  // The block to free next is busy, and its last page still names the one after it.
  lemma DestroyTurn(h: Heap, i: nat, p: Pool, nx0: seq<int>, nx: seq<int>, j: nat)
    requires HeapInv(h) && i < |h.caches| && h.caches[i].size > 0 && j < |h.caches[i].slabs|
    requires Sound(p) && AllBusy(p, h.caches[i].slabs[j..])
    requires StillThere(h.pool, p, h.caches[i].slabs[..j], nx0, nx)
    requires |nx| == |nx0| == |h.pool.order| + ORDER_NUM && SlabChain(nx0, h.caches[i].slabs, Pow2(h.caches[i].order))
    ensures var slabs, o := h.caches[i].slabs, h.caches[i].order;
      && Live(p, slabs[j]) && p.order[slabs[j]] == o
      && 0 <= BuddyEnd(slabs[j], o) < |nx|
      && nx[BuddyEnd(slabs[j], o)] == (if j + 1 < |slabs| then slabs[j + 1] else NULL)
      && (j + 1 < |slabs| ==> slabs[j + 1] != NULL)
  {
    hide HeapInv, Sound, Inv, AllBusy, StillThere, SlabChain, Live;
    HeapShape(h);
    SoundShape(p);
    var slabs := h.caches[i].slabs;
    SlabAt(h, i, j);
    StillAt(h.pool, p, slabs[..j], slabs[j], nx0, nx);
    NextInChain(nx0, slabs, Pow2(h.caches[i].order), j);
    if j + 1 < |slabs| { SlabAt(h, i, j + 1); }
  }

  lemma StillAt(p: Pool, r: Pool, gone: seq<int>, b: int, nx: seq<int>, nx2: seq<int>)
    requires Shape(p) && Shape(r) && StillThere(p, r, gone, nx, nx2) && Live(p, b) && b !in gone
    requires b + Pow2(p.order[b]) <= |nx|
    ensures Live(r, b) && r.order[b] == p.order[b] && |nx2| == |nx| && 0 <= BuddyEnd(b, p.order[b])
    ensures nx2[BuddyEnd(b, p.order[b])] == nx[BuddyEnd(b, p.order[b])]
  {
    assert Live(p, b);
  }

  lemma NextInChain(nx: seq<int>, slabs: seq<int>, w: nat, j: nat)
    requires SlabChain(nx, slabs, w) && j < |slabs|
    ensures 0 <= slabs[j] + w - 1 < |nx|
    ensures nx[slabs[j] + w - 1] == if j + 1 < |slabs| then slabs[j + 1] else NULL
  {
  }

  // The j-th slab of a cache is a busy block of its order that is none of those before.
  lemma SlabAt(h: Heap, i: nat, j: nat)
    requires HeapInv(h) && i < |h.caches| && h.caches[i].size > 0 && j < |h.caches[i].slabs| && Shape(h.pool)
    ensures var slabs, o := h.caches[i].slabs, h.caches[i].order;
      && Live(h.pool, slabs[j]) && h.pool.order[slabs[j]] == o && slabs[j] !in slabs[..j]
      && 0 <= slabs[j] && slabs[j] + Pow2(o) <= |h.pool.order|
  {
    assert CacheInv(h.pool, h.caches[i]);
    assert h.caches[i].slabs[j] in h.caches[i].slabs;
    assert BlockAt(h.pool.order, h.caches[i].slabs[j]);
  }

  lemma DestroyNext(h: Heap, i: nat, p: Pool, r: Pool, nx0: seq<int>, nx: seq<int>, nx2: seq<int>, j: nat)
    requires HeapInv(h) && i < |h.caches| && h.caches[i].size > 0 && j < |h.caches[i].slabs|
    requires Sound(p) && AllBusy(p, h.caches[i].slabs[j..]) && |p.order| == |h.pool.order|
    requires StillThere(h.pool, p, h.caches[i].slabs[..j], nx0, nx)
    requires |nx2| == |nx| == |nx0|
    requires Live(p, h.caches[i].slabs[j])
    requires r == BuddySpec.FreePages(p, h.caches[i].slabs[j]) && BusyEndsKept(r, nx, nx2)
    ensures Sound(r) && AllBusy(r, h.caches[i].slabs[j + 1..]) && |r.order| == |p.order|
    ensures FreeSlabs(p, h.caches[i].slabs[j..]) == FreeSlabs(r, h.caches[i].slabs[j + 1..])
    ensures StillThere(h.pool, r, h.caches[i].slabs[..j + 1], nx0, nx2)
  {
    var slabs := h.caches[i].slabs;
    HeapShape(h);
    SoundShape(p);
    hide HeapInv, Sound, FreeSlabs, AllBusy, BuddySpec.FreePages, StillThere, BlocksKept, BusyEndsKept;
    NextSlab(p, slabs, j);
    assert slabs[..j + 1] == slabs[..j] + [slabs[j]];
    StillOne(h.pool, p, r, slabs[..j], slabs[j], nx0, nx, nx2);
  }

  lemma HeapShape(h: Heap)
    requires HeapInv(h)
    ensures Shape(h.pool)
  {
  }

  lemma NextSlab(p: Pool, slabs: seq<int>, j: nat)
    requires Sound(p) && Shape(p) && Inv(p, -1) && j < |slabs| && AllBusy(p, slabs[j..]) && Live(p, slabs[j])
    ensures var r := BuddySpec.FreePages(p, slabs[j]);
      && Sound(r) && Shape(r) && |r.order| == |p.order| && AllBusy(r, slabs[j + 1..]) && BlocksKept(p, r, slabs[j])
      && FreeSlabs(p, slabs[j..]) == FreeSlabs(r, slabs[j + 1..])
  {
    hide Sound, AllBusy, BuddySpec.FreePages, BlocksKept, Inv;
    var s := slabs[j..];
    assert s[0] == slabs[j] && s[1..] == slabs[j + 1..] && s != [];
    FirstSlab(p, s);
  }

  lemma StillOne(h: Pool, p: Pool, r: Pool, gone: seq<int>, b: int, nx0: seq<int>, nx: seq<int>, nx2: seq<int>)
    requires Shape(h) && Shape(p) && Shape(r) && StillThere(h, p, gone, nx0, nx)
    requires BlocksKept(p, r, b) && BusyEndsKept(r, nx, nx2) && |nx2| == |nx| == |nx0|
    ensures StillThere(h, r, gone + [b], nx0, nx2)
  {
    forall a | Live(h, a) && a !in gone + [b] && a + Pow2(h.order[a]) <= |nx0|
      ensures Live(r, a) && r.order[a] == h.order[a]
      ensures nx2[BuddyEnd(a, h.order[a])] == nx0[BuddyEnd(a, h.order[a])]
    {
      assert a !in gone && a != b;
      assert Live(p, a);
    }
  }

  lemma DestroyRep(h: Heap, i: nat, r: Pool, recs: seq<KmemCache>, mem: seq<int>, nx: seq<int>, nx2: seq<int>)
    requires HeapInv(h) && i < |h.caches| && h.caches[i].size > 0 && Rep(h, recs, mem, nx) && |nx2| == |nx|
    requires AllBusy(h.pool, h.caches[i].slabs) && r == FreeSlabs(h.pool, h.caches[i].slabs)
    requires Shape(r) && StillThere(h.pool, r, h.caches[i].slabs, nx, nx2)
    ensures HeapInv(DestroyCache(h, i)) && Rep(DestroyCache(h, i), recs, mem, nx2)
    ensures DestroyCache(h, i).pool == r && DestroyCache(h, i).owner == h.owner
  {
    DestroyInv(h, i);
    forall j | 0 <= j < |h.caches| && j != i
      ensures RecordOk(recs[j], h.caches[j], mem, nx2)
    {
      DestroyOther(h, i, j, r, recs, mem, nx, nx2);
    }
    hide HeapInv, RecordOk, StillThere;
  }

  lemma DestroyOther(h: Heap, i: nat, j: nat, r: Pool, recs: seq<KmemCache>, mem: seq<int>, nx: seq<int>, nx2: seq<int>)
    requires HeapInv(h) && i < |h.caches| && j < |h.caches| && j != i && Rep(h, recs, mem, nx) && |nx2| == |nx|
    requires Shape(r) && StillThere(h.pool, r, h.caches[i].slabs, nx, nx2)
    ensures RecordOk(recs[j], h.caches[j], mem, nx2)
  {
    var d := h.caches[j];
    assert CacheInv(h.pool, d) && RecordOk(recs[j], d, mem, nx);
    if d.size > 0 {
      OthersApart(h, i, j);
      forall s | s in d.slabs
        ensures nx2[s + Pow2(d.order) - 1] == nx[s + Pow2(d.order) - 1]
      {
        assert BlockAt(h.pool.order, s);
      }
      hide HeapInv, CacheInv;
      RecordFrame(recs[j], d, mem, nx, mem, nx2);
    }
  }

  lemma AllUntouched(h: Heap, mem: seq<int>)
    ensures Untouched(h, mem, mem, -1)
  {
  }
}
