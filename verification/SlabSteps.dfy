// Every operation on the object caches keeps the heap sound.
module SlabSteps {
  import opened Powers
  import opened BuddySpec
  import opened BuddyRuns
  import opened SlabSpec

  // ---------- handing out and taking back one object ----------

  lemma TakeInv(h: Heap, i: nat)
    requires HeapInv(h) && i < |h.caches| && h.caches[i].avail != []
    ensures h.caches[i].size > 0 && HeapInv(TakeObject(h, i).0)
  {
    var c := h.caches[i];
    assert CacheInv(h.pool, c);
    var a := c.avail[0];
    var d := c.(avail := c.avail[1..], live := c.live + {a});
    assert IsObject(c, a);
    TakeCache(h.pool, c);
    PageInPool(h, i, a);
    var owner := h.owner[PageOf(a) := i];
    forall j, b | 0 <= j < |h.caches| && j != i && b in h.caches[j].live
      ensures 0 <= PageOf(b) < |owner| && owner[PageOf(b)] == j
    {
      PagesApart(h, i, a, j, b);
    }
    forall j | 0 <= j < |h.caches| && j != i
      ensures Apart2(d, h.caches[j]) && Apart2(h.caches[j], d) && -1 !in h.caches[j].slabs
    {
      OthersApart(h, i, j);
    }
    hide Sound;
    ReplaceCache(h, i, h.pool, d, owner, -1);
    assert h.(pool := h.pool, caches := h.caches[i := d], owner := owner) == TakeObject(h, i).0;
  }

  lemma TakeCache(p: Pool, c: Cache)
    requires Shape(p) && CacheInv(p, c) && c.avail != []
    ensures CacheInv(p, c.(avail := c.avail[1..], live := c.live + {c.avail[0]}))
  {
    var d := c.(avail := c.avail[1..], live := c.live + {c.avail[0]});
    assert c.avail == [c.avail[0]] + d.avail;
    forall a
      ensures IsObject(d, a) <==> a in d.avail || a in d.live
    {
      SameObjects(c, d, a);
    }
  }

  lemma SameObjects(c: Cache, d: Cache, a: int)
    requires c.size == d.size > 0 && c.order == d.order && c.slabs == d.slabs
    ensures IsObject(c, a) <==> IsObject(d, a)
  {
    assert forall s :: SlabObjects(c, s) == SlabObjects(d, s);
    if IsObject(c, a) {
      var s :| s in c.slabs && a in SlabObjects(c, s);
      assert s in d.slabs && a in SlabObjects(d, s);
    }
    if IsObject(d, a) {
      var s :| s in d.slabs && a in SlabObjects(d, s);
      assert s in c.slabs && a in SlabObjects(c, s);
    }
  }

  lemma OthersApart(h: Heap, i: nat, j: nat)
    requires HeapInv(h) && i < |h.caches| && j < |h.caches| && i != j
    ensures Apart2(h.caches[i], h.caches[j]) && Apart2(h.caches[j], h.caches[i])
    ensures -1 !in h.caches[j].slabs
  {
    assert CacheInv(h.pool, h.caches[j]);
    assert if i < j then Apart2(h.caches[i], h.caches[j]) else Apart2(h.caches[j], h.caches[i]);
  }

  lemma PageInPool(h: Heap, i: nat, a: int)
    requires HeapInv(h) && i < |h.caches| && h.caches[i].size > 0 && IsObject(h.caches[i], a)
    ensures 0 <= PageOf(a) < |h.owner|
  {
    var c := h.caches[i];
    assert CacheInv(h.pool, c);
    var s :| s in c.slabs && a in SlabObjects(c, s);
    ObjectInSlab(c, s, a);
    assert BlockAt(h.pool.order, s);
  }

  lemma PagesApart(h: Heap, i: nat, a: int, j: nat, b: int)
    requires HeapInv(h) && i < |h.caches| && j < |h.caches| && i != j
    requires h.caches[i].size > 0 && IsObject(h.caches[i], a) && b in h.caches[j].live
    ensures PageOf(a) != PageOf(b)
  {
    var c, d := h.caches[i], h.caches[j];
    assert CacheInv(h.pool, d);
    assert IsObject(d, b);
    var s :| s in c.slabs && a in SlabObjects(c, s);
    var t :| t in d.slabs && b in SlabObjects(d, t);
    ObjectInSlab(c, s, a);
    ObjectInSlab(d, t, b);
    OthersApart(h, i, j);
    SlabsApart(h, i, s, j, t);
  }

  lemma AllocInv(h: Heap, i: nat)
    requires HeapInv(h) && i < |h.caches| && h.caches[i].size > 0
    ensures HeapInv(CacheAlloc(h, i).0) && |CacheAlloc(h, i).0.caches| == |h.caches|
  {
    if Refill(h, i).Some? {
      RefillInv(h, i);
      TakeInv(Refill(h, i).value, i);
    }
  }

  lemma FreeInv(h: Heap, i: nat, a: int)
    requires HeapInv(h) && i < |h.caches| && a in h.caches[i].live
    ensures HeapInv(CacheFree(h, i, a))
  {
    var c := h.caches[i];
    assert CacheInv(h.pool, c);
    var d := c.(avail := [a] + c.avail, live := c.live - {a});
    forall b
      ensures IsObject(d, b) <==> b in d.avail || b in d.live
    {
      SameObjects(c, d, b);
      assert IsObject(c, b) <==> b in c.avail || b in c.live;
    }
    assert CacheInv(h.pool, d);
    forall j | 0 <= j < |h.caches| && j != i
      ensures Apart2(d, h.caches[j]) && Apart2(h.caches[j], d) && -1 !in h.caches[j].slabs
    {
      OthersApart(h, i, j);
    }
    hide Sound, CacheInv;
    ReplaceCache(h, i, h.pool, d, h.owner, -1);
  }

  // ---------- creating and destroying a cache ----------

  lemma {:induction false} OrderFromLeast(size: nat, k: nat)
    requires k <= CACHE_MAX_ORDER + 1
    ensures OrderFrom(size, k) == -1 ==> forall j | k <= j <= CACHE_MAX_ORDER :: size > MAX_WASTE * Pow2(j)
    ensures OrderFrom(size, k) != -1 ==>
      && k <= OrderFrom(size, k) <= CACHE_MAX_ORDER && size <= MAX_WASTE * Pow2(OrderFrom(size, k))
      && forall j | k <= j < OrderFrom(size, k) :: size > MAX_WASTE * Pow2(j)
    decreases CACHE_MAX_ORDER + 1 - k
  {
    if k <= CACHE_MAX_ORDER && size > MAX_WASTE * Pow2(k) {
      OrderFromLeast(size, k + 1);
    }
  }

  // find_right_order finds the least order at which an object takes at most a tenth of
  // the slab (410 bytes of each page), and none exactly for more than 13120 bytes.
  lemma RightOrderLeast(size: nat)
    ensures MAX_WASTE == 410
    ensures RightOrder(size) == -1 <==> size > 13120
    ensures size <= 13120 ==>
      && 0 <= RightOrder(size) <= CACHE_MAX_ORDER && size <= 410 * Pow2(RightOrder(size))
      && forall j | 0 <= j < RightOrder(size) :: size > 410 * Pow2(j)
  {
    Pow2Small();
    OrderFromLeast(size, 0);
  }

  // A slab of the order chosen holds at least nine objects, and what is left over after
  // the last whole object is less than a tenth of it.
  lemma SlabUse(size: nat, s: int)
    requires 0 < size <= 13120
    ensures var o := RightOrder(size); var bytes := SlabBytes(o);
      var objects := Objects(s, size, s + bytes);
      && |objects| == bytes / size && |objects| >= 9
      && bytes - |objects| * size < 410 * Pow2(o)
  {
    RightOrderLeast(size);
    var o := RightOrder(size);
    var bytes := SlabBytes(o);
    var m := |Objects(s, size, s + bytes)|;
    ObjectsCount(s, size, s + bytes);
    assert m * size + size == (m + 1) * size;
    if m < 9 {
      Product(m + 1, 9, size);
      assert false;
    }
    Quotient(bytes, size, m);
  }

  lemma Quotient(a: nat, b: nat, m: nat)
    requires b > 0 && m * b <= a < (m + 1) * b
    ensures a / b == m
  {
    var q := a / b;
    assert a == q * b + a % b;
    assert (m + 1) * b == m * b + b;
    assert (q - m) * b == a - a % b - m * b;
    NoMultiple(q - m, b, a - a % b - m * b);
    if q != m { Product(1, if q > m then q - m else m - q, b); }
  }

  // A size for which kmem_cache_create either refuses or can format its slab.
  predicate Creatable(size: nat) {
    RightOrder(size) >= 0 ==> Formattable(size, SlabBytes(RightOrder(size)))
  }

  lemma CreateInv(h: Heap, i: nat, size: nat)
    requires HeapInv(h) && i < |h.caches| && h.caches[i].size == 0 && Creatable(size)
    ensures HeapInv(CreateCache(h, i, size))
  {
    var o := RightOrder(size);
    RightOrderLeast(size);
    if o != -1 && AllocPages(h.pool, o).Some? {
      var (r, x) := AllocPages(h.pool, o).value;
      AllocBlock(h.pool, o, r, x);
      var c := FreshCache(size, o, x);
      FreshInv(r, size, o, x);
      assert CacheInv(h.pool, h.caches[i]);
      forall j | 0 <= j < |h.caches| && j != i
        ensures Apart2(c, h.caches[j]) && Apart2(h.caches[j], c) && -1 !in h.caches[j].slabs
      {
        NewSlabApart(h, i, j, x);
        assert [] + [x] == c.slabs;
      }
      hide Sound;
      ReplaceCache(h, i, r, c, h.owner, -1);
    }
  }

  lemma FreshInv(r: Pool, size: nat, o: nat, x: int)
    requires Sound(r) && Live(r, x) && r.order[x] == o
    requires Formattable(size, SlabBytes(o)) && size <= SlabBytes(o)
    ensures CacheInv(r, FreshCache(size, o, x))
  {
    var c := FreshCache(size, o, x);
    ObjectsFit(x * PAGE_SIZE, size, x * PAGE_SIZE + SlabBytes(o));
    forall a
      ensures IsObject(c, a) <==> a in c.avail
    {
      assert c.avail == SlabObjects(c, x);
      if a in c.avail { assert x in c.slabs; }
    }
  }

  ghost predicate AllBusy(p: Pool, slabs: seq<int>)
    requires Shape(p)
  {
    NoDup(slabs) && forall s :: s in slabs ==> Live(p, s)
  }

  // Frees the slabs one after another, as kmem_cache_destroy does along their chain.
  function FreeSlabs(p: Pool, slabs: seq<int>): (r: Pool)
    requires Sound(p) && AllBusy(p, slabs)
    decreases |slabs|
  {
    if slabs == [] then p
    else
      assert Live(p, slabs[0]);
      FirstSlab(p, slabs);
      FreeSlabs(FreePages(p, slabs[0]), slabs[1..])
  }

  lemma FirstSlab(p: Pool, slabs: seq<int>)
    requires Sound(p) && AllBusy(p, slabs) && slabs != []
    ensures Live(p, slabs[0]) && Sound(FreePages(p, slabs[0])) && AllBusy(FreePages(p, slabs[0]), slabs[1..])
    ensures BlocksKept(p, FreePages(p, slabs[0]), slabs[0])
  {
    assert slabs[0] in slabs;
    FreeBlock(p, slabs[0]);
    hide Sound, FreePages;
    forall s | s in slabs[1..]
      ensures s in slabs && s != slabs[0]
    {
    }
  }

  // Every slab is given back, once, and no other busy block is touched.
  lemma {:induction false} FreeSlabsExact(p: Pool, slabs: seq<int>)
    requires Sound(p) && AllBusy(p, slabs)
    ensures var r := FreeSlabs(p, slabs);
      && Sound(r) && |r.order| == |p.order|
      && forall b {:trigger Live(p, b)} {:trigger Live(r, b)} | Live(p, b) && b !in slabs ::
           Live(r, b) && r.order[b] == p.order[b]
    ensures forall i | 0 <= i < |p.order| ::
      PageBusy(FreeSlabs(p, slabs), i) <==>
        PageBusy(p, i) && forall s :: s in slabs ==> !(s <= i < s + Pow2(p.order[s]))
    decreases |slabs|
  {
    if slabs != [] {
      FirstSlab(p, slabs);
      assert slabs[0] in slabs;
      FreeSound(p, slabs[0]);
      var q := FreePages(p, slabs[0]);
      assert forall s :: s in slabs <==> s == slabs[0] || s in slabs[1..];
      assert forall s :: s in slabs[1..] ==> s != slabs[0];
      assert FreeSlabs(p, slabs) == FreeSlabs(q, slabs[1..]);
      hide Sound, FreePages, FreeSlabs;
      FreeSlabsExact(q, slabs[1..]);
    }
  }

  function DestroyCache(h: Heap, i: nat): (r: Heap)
    requires HeapInv(h) && i < |h.caches| && h.caches[i].size > 0
  {
    SlabsBusy(h, i);
    h.(pool := FreeSlabs(h.pool, h.caches[i].slabs), caches := h.caches[i := NO_CACHE])
  }

  lemma SlabsBusy(h: Heap, i: nat)
    requires HeapInv(h) && i < |h.caches|
    ensures AllBusy(h.pool, h.caches[i].slabs)
  {
    assert CacheInv(h.pool, h.caches[i]);
  }

  lemma DestroyInv(h: Heap, i: nat)
    requires HeapInv(h) && i < |h.caches| && h.caches[i].size > 0
    ensures HeapInv(DestroyCache(h, i))
  {
    SlabsBusy(h, i);
    FreeSlabsExact(h.pool, h.caches[i].slabs);
    var g := DestroyCache(h, i);
    hide Sound, FreeSlabs;
    forall j | 0 <= j < |g.caches|
      ensures CacheInv(g.pool, g.caches[j])
    {
      if j != i {
        OthersApart(h, i, j);
        assert CacheInv(h.pool, h.caches[j]);
        ElsewhereKept(h.pool, g.pool, h.caches[i].slabs, h.caches[j]);
      }
    }
  }

  lemma ElsewhereKept(p: Pool, r: Pool, slabs: seq<int>, c: Cache)
    requires Shape(p) && Shape(r) && CacheInv(p, c) && |r.order| == |p.order|
    requires forall s :: s in c.slabs ==> s !in slabs
    requires forall b {:trigger Live(p, b)} | Live(p, b) && b !in slabs ::
      Live(r, b) && r.order[b] == p.order[b]
    ensures CacheInv(r, c)
  {
  }
}
