// How caches are laid out in memory: the free list inside the objects, and the chain of
// slabs through the next links of their last pages.
module SlabRep {
  import opened Common
  import opened Powers
  import opened BuddySpec
  import opened BuddyLinks
  import opened BuddyRuns
  import opened SlabSpec
  import opened SlabSteps

  // struct kmem_cache
  datatype KmemCache = KmemCache(objSize: nat, objNr: nat, pageOrder: nat, headPage: int, endPage: int, nfBlock: int)

  // Each address holds the address after it.
  ghost predicate Chained(mem: seq<int>, s: seq<int>) {
    && (forall i | 0 <= i < |s| :: 0 <= s[i] < |mem|)
    && (forall i | 0 <= i < |s| - 1 :: mem[s[i]] == s[i + 1])
  }

  // The last page of each slab points to the first page of the next, the last to NULL.
  ghost predicate SlabChain(nx: seq<int>, slabs: seq<int>, w: nat) {
    forall i | 0 <= i < |slabs| ::
      && 0 <= slabs[i] + w - 1 < |nx|
      && nx[slabs[i] + w - 1] == if i + 1 < |slabs| then slabs[i + 1] else NULL
  }

  ghost predicate RecordOk(k: KmemCache, c: Cache, mem: seq<int>, nx: seq<int>) {
    c.size == 0 ||
    (&& k.objSize == c.size && k.pageOrder == c.order && k.objNr == |c.avail|
     && (c.avail != [] ==> k.nfBlock == c.avail[0]) && Chained(mem, c.avail)
     && c.slabs != [] && k.headPage == c.slabs[0]
     && k.endPage == c.slabs[|c.slabs| - 1] + Pow2(c.order) - 1
     && SlabChain(nx, c.slabs, Pow2(c.order)))
  }

  ghost predicate Rep(h: Heap, recs: seq<KmemCache>, mem: seq<int>, nx: seq<int>) {
    && |recs| == |h.caches|
    && |mem| == |h.pool.order| * PAGE_SIZE
    && |nx| == |h.pool.order| + ORDER_NUM
    && forall i | 0 <= i < |recs| :: RecordOk(recs[i], h.caches[i], mem, nx)
  }

  lemma RecordFrame(k: KmemCache, c: Cache, mem: seq<int>, nx: seq<int>, mem2: seq<int>, nx2: seq<int>)
    requires RecordOk(k, c, mem, nx) && |mem2| == |mem| && |nx2| == |nx|
    requires c.size > 0 ==> forall a :: a in c.avail && 0 <= a < |mem| ==> mem2[a] == mem[a]
    requires c.size > 0 ==> forall s :: s in c.slabs && 0 <= s + Pow2(c.order) - 1 < |nx| ==>
      nx2[s + Pow2(c.order) - 1] == nx[s + Pow2(c.order) - 1]
    ensures RecordOk(k, c, mem2, nx2)
  {
    if c.size > 0 {
      ChainedFrame(mem, mem2, c.avail);
      SlabChainFrame(nx, nx2, c.slabs, Pow2(c.order));
      hide Chained, SlabChain;
    }
  }

  lemma SlabChainFrame(nx: seq<int>, nx2: seq<int>, slabs: seq<int>, w: nat)
    requires SlabChain(nx, slabs, w) && |nx2| == |nx|
    requires forall s :: s in slabs && 0 <= s + w - 1 < |nx| ==> nx2[s + w - 1] == nx[s + w - 1]
    ensures SlabChain(nx2, slabs, w)
  {
    forall i | 0 <= i < |slabs|
      ensures 0 <= slabs[i] + w - 1 < |nx2|
      ensures nx2[slabs[i] + w - 1] == if i + 1 < |slabs| then slabs[i + 1] else NULL
    {
      assert slabs[i] in slabs;
    }
  }

  lemma ChainedFrame(mem: seq<int>, mem2: seq<int>, s: seq<int>)
    requires Chained(mem, s) && |mem2| == |mem|
    requires forall a :: a in s && 0 <= a < |mem| ==> mem2[a] == mem[a]
    ensures Chained(mem2, s)
  {
    forall i | 0 <= i < |s| - 1
      ensures mem2[s[i]] == s[i + 1]
    {
      assert s[i] in s;
    }
  }

  // ---------- what stays untouched ----------

  // No word written between the two memories overlaps the bytes of the object at a.
  ghost predicate BytesKept(mem: seq<int>, mem2: seq<int>, a: int, size: nat)
    requires |mem| == |mem2|
  {
    forall w | a - WORD < w < a + size && 0 <= w < |mem| :: mem2[w] == mem[w]
  }

  // No word written overlaps an object of the cache, free or live, but the one at `but`.
  ghost predicate ObjectsKept(c: Cache, mem: seq<int>, mem2: seq<int>, but: int) {
    && |mem| == |mem2|
    && forall a {:trigger a in c.live} {:trigger a in c.avail} ::
         (a in c.live || a in c.avail) && a != but ==> BytesKept(mem, mem2, a, c.size)
  }

  // No word written overlaps an object of h, free or live, but the one at `but`.
  ghost predicate Untouched(h: Heap, mem: seq<int>, mem2: seq<int>, but: int) {
    && |mem| == |mem2|
    && forall i | 0 <= i < |h.caches| :: ObjectsKept(h.caches[i], mem, mem2, but)
  }

  // All words written are those at the addresses s.
  ghost predicate WritesAt(mem: seq<int>, mem2: seq<int>, s: seq<int>) {
    && |mem| == |mem2|
    && forall w | 0 <= w < |mem| && mem2[w] != mem[w] :: w in s
  }

  // All words written lie inside the block of 2^order pages at x.
  ghost predicate WritesInBlock(mem: seq<int>, mem2: seq<int>, x: int, order: nat) {
    && |mem| == |mem2|
    && forall w | 0 <= w < |mem| && mem2[w] != mem[w] ::
         x * PAGE_SIZE <= w && w + WORD <= x * PAGE_SIZE + SlabBytes(order)
  }

  // An object of a cache lies clear of any busy block that is not one of its slabs.
  lemma ClearOf(p: Pool, c: Cache, a: int, x: int)
    requires Sound(p) && CacheInv(p, c) && c.size > 0 && IsObject(c, a)
    requires Head(p.order, x) && x !in c.slabs
    ensures a + c.size <= x * PAGE_SIZE || x * PAGE_SIZE + SlabBytes(p.order[x]) <= a
  {
    var s :| s in c.slabs && a in SlabObjects(c, s);
    ObjectInSlab(c, s, a);
    if s < x { Apart(p.order, s, x); } else { Apart(p.order, x, s); }
  }

  // Formatting a block that is no slab of a cache leaves its record and objects alone.
  lemma FormatElsewhere(p: Pool, k: KmemCache, c: Cache, x: int, mem: seq<int>, mem2: seq<int>, nx: seq<int>)
    requires Sound(p) && CacheInv(p, c) && RecordOk(k, c, mem, nx)
    requires Head(p.order, x) && x !in c.slabs && WritesInBlock(mem, mem2, x, p.order[x])
    ensures RecordOk(k, c, mem2, nx)
    ensures ObjectsKept(c, mem, mem2, -1)
  {
    if c.size > 0 {
      forall a | a in c.avail || a in c.live
        ensures a + c.size <= x * PAGE_SIZE || x * PAGE_SIZE + SlabBytes(p.order[x]) <= a
      {
        assert IsObject(c, a);
        ClearOf(p, c, a, x);
      }
      hide Sound;
      RecordFrame(k, c, mem, nx, mem2, nx);
    }
  }

  // ---------- one operation on one record ----------

  lemma TakeRecord(k: KmemCache, c: Cache, mem: seq<int>, nx: seq<int>)
    requires RecordOk(k, c, mem, nx) && c.size > 0 && c.avail != []
    ensures k.objNr > 0 && k.nfBlock == c.avail[0] && 0 <= k.nfBlock < |mem|
    ensures RecordOk(k.(objNr := k.objNr - 1, nfBlock := mem[k.nfBlock]),
                     c.(avail := c.avail[1..], live := c.live + {c.avail[0]}), mem, nx)
  {
    assert c.avail[0] in c.avail;
  }

  lemma GiveRecord(k: KmemCache, c: Cache, a: int, mem: seq<int>, nx: seq<int>)
    requires RecordOk(k, c, mem, nx) && c.size > 0 && 0 <= a < |mem| && a !in c.avail
    ensures RecordOk(k.(objNr := k.objNr + 1, nfBlock := a),
                     c.(avail := [a] + c.avail, live := c.live - {a}), mem[a := k.nfBlock], nx)
  {
    var mem2, s := mem[a := k.nfBlock], [a] + c.avail;
    forall i | 0 <= i < |s| - 1
      ensures mem2[s[i]] == s[i + 1]
    {
      if i > 0 {
        assert s[i] == c.avail[i - 1] && s[i + 1] == c.avail[i];
        assert c.avail[i - 1] in c.avail;
      }
    }
  }

  // The new slab x goes to the end of the slab chain.
  lemma GrowRecord(k: KmemCache, c: Cache, x: int, avail: seq<int>, mem: seq<int>, nx: seq<int>)
    requires RecordOk(k, c, mem, nx) && c.size > 0 && NoDup(c.slabs)
    requires Chained(mem, avail) && avail != []
    requires x !in c.slabs && 0 <= x && x + Pow2(c.order) <= |nx|
    ensures 0 <= k.endPage < |nx|
    ensures var nx2 := nx[k.endPage := x][x + Pow2(c.order) - 1 := NULL];
      RecordOk(k.(objNr := |avail|, nfBlock := avail[0], endPage := x + Pow2(c.order) - 1),
               c.(slabs := c.slabs + [x], avail := avail), mem, nx2)
  {
    var w := Pow2(c.order);
    var last := c.slabs[|c.slabs| - 1];
    var nx2 := nx[k.endPage := x][x + w - 1 := NULL];
    var slabs := c.slabs + [x];
    forall i | 0 <= i < |slabs|
      ensures 0 <= slabs[i] + w - 1 < |nx2|
      ensures nx2[slabs[i] + w - 1] == if i + 1 < |slabs| then slabs[i + 1] else NULL
    {
      if i < |c.slabs| {
        assert slabs[i] == c.slabs[i] && c.slabs[i] in c.slabs;
      }
    }
  }

  // ---------- one operation on the whole heap ----------

  // The next links at the ends of a cache's slabs survive buddy operations on other
  // blocks, and writes to the ends of other busy blocks.
  lemma EndsSurvive(p: Pool, r: Pool, k: KmemCache, c: Cache, mem: seq<int>, nx: seq<int>, nx2: seq<int>)
    requires Shape(p) && Inv(p, -1) && CacheInv(p, c) && RecordOk(k, c, mem, nx) && BusyEndsKept(p, nx, nx2)
    requires |nx| == |nx2| == |p.order| + ORDER_NUM
    ensures RecordOk(k, c, mem, nx2)
  {
    if c.size > 0 {
      forall s | s in c.slabs
        ensures nx2[s + Pow2(c.order) - 1] == nx[s + Pow2(c.order) - 1]
      {
        assert BlockAt(p.order, s);
      }
      hide Inv, CacheInv, BusyEndsKept;
      RecordFrame(k, c, mem, nx, mem, nx2);
    }
  }

  lemma EndWriteElsewhere(p: Pool, k: KmemCache, c: Cache, mem: seq<int>, nx: seq<int>, b: int, e: int, v: int)
    requires Inv(p, -1) && CacheInv(p, c) && RecordOk(k, c, mem, nx)
    requires Live(p, b) && b !in c.slabs && e == b + Pow2(p.order[b]) - 1 && 0 <= e < |nx|
    ensures RecordOk(k, c, mem, nx[e := v])
  {
    if c.size > 0 {
      forall s | s in c.slabs
        ensures s + Pow2(c.order) - 1 != e
      {
        if s < b { Apart(p.order, s, b); } else { Apart(p.order, b, s); }
      }
      hide Inv, CacheInv;
      RecordFrame(k, c, mem, nx, mem, nx[e := v]);
    }
  }

  // Everything that happens to a cache that is not the one growing.
  lemma GrowOther(p: Pool, r: Pool, k: KmemCache, d: Cache, last: int, x: int, o: nat,
                  mem: seq<int>, mem2: seq<int>, nx: seq<int>, nx1: seq<int>)
    requires Sound(p) && Sound(r) && CacheInv(p, d) && CacheInv(r, d) && RecordOk(k, d, mem, nx)
    requires BusyEndsKept(p, nx, nx1) && |nx| == |nx1| == |p.order| + ORDER_NUM && |r.order| == |p.order|
    requires Live(r, last) && r.order[last] == o && last !in d.slabs
    requires Live(r, x) && r.order[x] == o && x !in d.slabs
    requires WritesInBlock(mem, mem2, x, o)
    ensures last + Pow2(o) <= |r.order| && x + Pow2(o) <= |r.order|
    ensures RecordOk(k, d, mem2, nx1[last + Pow2(o) - 1 := x][x + Pow2(o) - 1 := NULL])
    ensures ObjectsKept(d, mem, mem2, -1)
  {
    assert BlockAt(r.order, last) && BlockAt(r.order, x);
    EndsSurvive(p, r, k, d, mem, nx, nx1);
    hide Inv, DirtyExact, CacheInv, RecordOk, BusyEndsKept, WritesInBlock;
    var e1, e2 := last + Pow2(o) - 1, x + Pow2(o) - 1;
    EndWriteElsewhere(r, k, d, mem, nx1, last, e1, x);
    EndWriteElsewhere(r, k, d, mem, nx1[e1 := x], x, e2, NULL);
    FormatElsewhere(r, k, d, x, mem, mem2, nx1[e1 := x][e2 := NULL]);
  }

  // The cache that grows gets the block x as its newest slab.
  lemma GrowThis(p: Pool, r: Pool, k: KmemCache, c: Cache, x: int,
                 mem: seq<int>, mem2: seq<int>, nx: seq<int>, nx1: seq<int>)
    requires Sound(p) && CacheInv(p, c) && c.size > 0 && RecordOk(k, c, mem, nx)
    requires AllocPages(p, c.order) == Some((r, x))
    requires BusyEndsKept(p, nx, nx1) && |nx| == |nx1| == |p.order| + ORDER_NUM
    requires WritesInBlock(mem, mem2, x, c.order) && Chained(mem2, SlabObjects(c, x)) && SlabObjects(c, x) != []
    ensures Sound(r) && Shape(r) && |r.order| == |p.order| && x !in c.slabs && 0 <= k.endPage < |nx1|
    ensures Live(r, x) && r.order[x] == c.order && x + Pow2(c.order) <= |r.order|
    ensures RecordOk(k.(objNr := |SlabObjects(c, x)|, nfBlock := SlabObjects(c, x)[0],
                        endPage := x + Pow2(c.order) - 1),
                     c.(slabs := c.slabs + [x], avail := SlabObjects(c, x)), mem2,
                     nx1[k.endPage := x][x + Pow2(c.order) - 1 := NULL])
    ensures ObjectsKept(c, mem, mem2, -1)
  {
    AllocBlock(p, c.order, r, x);
    CacheKept(p, r, -1, c);
    EndsSurvive(p, r, k, c, mem, nx, nx1);
    assert NoDup(c.slabs) && x !in c.slabs;
    hide Sound, CacheInv, RecordOk, BusyEndsKept, WritesInBlock;
    FormatElsewhere(r, k, c, x, mem, mem2, nx1);
    GrowRecord(k, c, x, SlabObjects(c, x), mem2, nx1);
  }

  // What growing cache i means for cache j.
  lemma GrowAt(h: Heap, i: nat, j: nat, r: Pool, x: int, recs: seq<KmemCache>,
               mem: seq<int>, mem2: seq<int>, nx: seq<int>, nx1: seq<int>)
    requires HeapInv(h) && i < |h.caches| && j < |h.caches| && j != i && Rep(h, recs, mem, nx)
    requires var c := h.caches[i];
      && c.size > 0 && c.avail == [] && AllocPages(h.pool, c.order) == Some((r, x))
      && WritesInBlock(mem, mem2, x, c.order)
    requires BusyEndsKept(h.pool, nx, nx1) && |nx| == |nx1|
    requires 0 <= recs[i].endPage < |nx1| && 0 <= x && x + Pow2(h.caches[i].order) <= |nx1|
    ensures RecordOk(recs[j], h.caches[j], mem2,
                     nx1[recs[i].endPage := x][x + Pow2(h.caches[i].order) - 1 := NULL])
    ensures ObjectsKept(h.caches[j], mem, mem2, -1)
  {
    hide HeapInv, Sound, CacheInv, RecordOk, WritesInBlock, BusyEndsKept, Rep, AllocPages, BlocksKept, Apart2;
    var c, d := h.caches[i], h.caches[j];
    RecordOf(h, i, recs, mem, nx);
    RecordOf(h, j, recs, mem, nx);
    LastSlab(h.pool, recs[i], c, mem, nx);
    var last := c.slabs[|c.slabs| - 1];
    AllocBlock(h.pool, c.order, r, x);
    SoundShape(r);
    SlabsElsewhere(h, i, j, x);
    CacheKept(h.pool, r, -1, d);
    StillLast(h.pool, r, last);
    GrowOther(h.pool, r, recs[j], d, last, x, c.order, mem, mem2, nx, nx1);
  }

  lemma LastSlab(p: Pool, k: KmemCache, c: Cache, mem: seq<int>, nx: seq<int>)
    requires Shape(p) && CacheInv(p, c) && RecordOk(k, c, mem, nx) && c.size > 0
    ensures c.slabs != []
    ensures var last := c.slabs[|c.slabs| - 1];
      last in c.slabs && Live(p, last) && p.order[last] == c.order && k.endPage == last + Pow2(c.order) - 1
  {
    assert c.slabs[|c.slabs| - 1] in c.slabs;
  }

  lemma StillLast(p: Pool, r: Pool, last: int)
    requires Shape(p) && Shape(r) && BlocksKept(p, r, -1) && Live(p, last)
    ensures Live(r, last) && r.order[last] == p.order[last] && |r.order| == |p.order|
  {
  }

  // No slab of cache i, nor the block x, is a slab of cache j.
  lemma SlabsElsewhere(h: Heap, i: nat, j: nat, x: int)
    requires HeapInv(h) && i < |h.caches| && j < |h.caches| && i != j && !Live(h.pool, x)
    ensures forall s :: s in h.caches[i].slabs ==> s !in h.caches[j].slabs
    ensures x !in h.caches[j].slabs && -1 !in h.caches[j].slabs
  {
    OthersApart(h, i, j);
    NewSlabApart(h, i, j, x);
    assert x in h.caches[i].slabs + [x];
    hide HeapInv;
  }

  lemma GrowRep(h: Heap, i: nat, r: Pool, x: int, recs: seq<KmemCache>,
                mem: seq<int>, mem2: seq<int>, nx: seq<int>, nx1: seq<int>)
    requires HeapInv(h) && i < |h.caches| && Rep(h, recs, mem, nx)
    requires var c := h.caches[i];
      && c.size > 0 && c.avail == [] && AllocPages(h.pool, c.order) == Some((r, x))
      && WritesInBlock(mem, mem2, x, c.order) && Chained(mem2, SlabObjects(c, x)) && SlabObjects(c, x) != []
    requires BusyEndsKept(h.pool, nx, nx1) && |nx| == |nx1|
    ensures var c, k := h.caches[i], recs[i];
      && 0 <= x && 0 <= k.endPage < |nx1| && x + Pow2(c.order) <= |h.pool.order| && Refill(h, i).Some?
      && x + Pow2(c.order) <= |nx1|
      && Rep(Refill(h, i).value,
             recs[i := k.(objNr := |SlabObjects(c, x)|, nfBlock := SlabObjects(c, x)[0],
                          endPage := x + Pow2(c.order) - 1)],
             mem2, nx1[k.endPage := x][x + Pow2(c.order) - 1 := NULL])
    ensures Untouched(h, mem, mem2, -1)
  {
    var c, k := h.caches[i], recs[i];
    RecordOf(h, i, recs, mem, nx);
    hide HeapInv, Sound, CacheInv, RecordOk, WritesInBlock, BusyEndsKept, Chained;
    GrowThis(h.pool, r, k, c, x, mem, mem2, nx, nx1);
    var nx2 := nx1[k.endPage := x][x + Pow2(c.order) - 1 := NULL];
    forall j | 0 <= j < |h.caches| && j != i
      ensures RecordOk(recs[j], h.caches[j], mem2, nx2)
      ensures ObjectsKept(h.caches[j], mem, mem2, -1)
    {
      GrowAt(h, i, j, r, x, recs, mem, mem2, nx, nx1);
    }
    assert Refill(h, i).value
      == h.(pool := r, caches := h.caches[i := c.(slabs := c.slabs + [x], avail := SlabObjects(c, x))]);
  }

  lemma RecordOf(h: Heap, i: nat, recs: seq<KmemCache>, mem: seq<int>, nx: seq<int>)
    requires HeapInv(h) && i < |h.caches| && Rep(h, recs, mem, nx)
    ensures Shape(h.pool) && Inv(h.pool, -1) && Sound(h.pool) && |nx| == |h.pool.order| + ORDER_NUM
    ensures i < |recs| && CacheInv(h.pool, h.caches[i]) && RecordOk(recs[i], h.caches[i], mem, nx)
  {
  }
}
