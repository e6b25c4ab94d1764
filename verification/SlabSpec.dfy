// The object caches of mm/mem.c as values. Addresses are byte offsets from the start
// of the paged area; page i covers offsets i * PAGE_SIZE up to the next page.
module SlabSpec {
  import opened Common
  import opened Powers
  import opened BuddySpec
  import opened BuddyTheorems
  import opened BuddyRuns

  const PAGE_SIZE: nat := 4096
  const WORD: nat := 4

  function SlabBytes(order: nat): nat { PAGE_SIZE * Pow2(order) }

  // A cache: its object size, the order and heads of its slabs from oldest to newest,
  // the free objects from nf_block on that obj_nr counts, and the objects handed out.
  // Size 0 marks a slot that holds no cache.
  datatype Cache = Cache(size: nat, order: nat, slabs: seq<int>, avail: seq<int>, live: set<int>)

  const NO_CACHE := Cache(0, 0, [], [], {})

  // owner[i] is the cachep field of page i: the index of a cache.
  datatype Heap = Heap(pool: Pool, caches: seq<Cache>, owner: seq<int>)

  // ---------- formatting a slab ----------

  // The whole objects that fit between start and end.
  function Objects(start: int, size: nat, end: int): (r: seq<int>)
    requires size > 0
    decreases end - start
  {
    if start + size <= end then [start] + Objects(start + size, size, end) else []
  }

  lemma {:induction false} ObjectsFit(start: int, size: nat, end: int)
    requires size > 0
    ensures forall i | 0 <= i < |Objects(start, size, end)| ::
      start <= Objects(start, size, end)[i] && Objects(start, size, end)[i] + size <= end
    ensures forall i, j | 0 <= i < j < |Objects(start, size, end)| ::
      Objects(start, size, end)[i] + size <= Objects(start, size, end)[j]
    decreases end - start
  {
    if start + size <= end {
      ObjectsFit(start + size, size, end);
    }
  }

  // Objects are numbered from the start of the slab.
  lemma {:induction false} ObjectsAt(start: int, size: nat, end: int, i: nat)
    requires size > 0 && i < |Objects(start, size, end)|
    ensures Objects(start, size, end)[i] == start + i * size
    decreases i
  {
    if i > 0 {
      ObjectsAt(start + size, size, end, i - 1);
      assert (i - 1) * size + size == i * size;
    }
  }

  // There are as many as the bytes divided by the size, rounded down.
  lemma {:induction false} ObjectsCount(start: int, size: nat, end: int)
    requires size > 0 && start <= end
    ensures |Objects(start, size, end)| * size <= end - start < (|Objects(start, size, end)| + 1) * size
    decreases end - start
  {
    var m := |Objects(start, size, end)|;
    if start + size <= end {
      ObjectsCount(start + size, size, end);
      assert (m - 1) * size + size == m * size;
      assert m * size + size == (m + 1) * size;
    }
  }

  // The address at which the links written into a slab stop: the last whole object, or the
  // rest of the slab after it when the size does not divide the slab.
  function LastNode(start: int, size: nat, end: int): int
    requires size > 0
    decreases end - start
  {
    if start + size < end then LastNode(start + size, size, end) else start
  }

  // Objects have room for a link, and so has the rest after the last one, if any.
  predicate Formattable(size: nat, bytes: nat) {
    size >= WORD && (bytes % size == 0 || bytes % size >= WORD)
  }

  // The links written into a slab stay inside it exactly when its size is formattable.
  lemma {:induction false} LinksInsideExactly(start: int, size: nat, end: int)
    requires 0 < size <= end - start
    ensures LastNode(start, size, end) + WORD <= end <==> Formattable(size, end - start)
    ensures LastNode(start, size, end) + 4 <= end
      <==> size >= 4 && ((end - start) % size == 0 || (end - start) % size >= 4)
    decreases end - start
  {
    if size < WORD {
      LastNodeLate(start, size, end);
    } else if start + size < end {
      StepDown(end - start, size);
      if size <= end - start - size {
        LinksInsideExactly(start + size, size, end);
      } else {
        Small(end - start - size, size);
      }
    } else {
      assert end - start == size && size % size == 0;
    }
  }

  // The last node starts less than an object before the end, or with the last object.
  lemma {:induction false} LastNodeLate(start: int, size: nat, end: int)
    requires size > 0
    ensures end - size <= LastNode(start, size, end)
    decreases end - start
  {
    if start + size < end {
      LastNodeLate(start + size, size, end);
    }
  }

  // The words that formatting writes, links of objects and of the rest, do not overlap.
  lemma LinksApart(start: int, size: nat, end: int, a: int)
    requires size >= WORD && a in Objects(start, size, end)
    ensures forall b | b in Objects(start, size, end) && b != a :: a + WORD <= b || b + WORD <= a
    ensures a == LastNode(start, size, end) || a + WORD <= LastNode(start, size, end)
  {
    ObjectsFit(start, size, end);
    LastNodeBehind(start, size, end, a);
  }

  lemma {:induction false} LastNodeBehind(start: int, size: nat, end: int, a: int)
    requires size > 0 && a in Objects(start, size, end)
    ensures a == LastNode(start, size, end) || a + size <= LastNode(start, size, end)
    decreases end - start
  {
    if start + size < end {
      if a == start {
        LastNodeFrom(start + size, size, end);
      } else {
        LastNodeBehind(start + size, size, end, a);
      }
    }
  }

  lemma {:induction false} LastNodeFrom(start: int, size: nat, end: int)
    requires size > 0
    ensures start <= LastNode(start, size, end)
    decreases end - start
  {
    if start + size < end {
      LastNodeFrom(start + size, size, end);
    }
  }

  lemma StepDown(b: nat, size: nat)
    requires 0 < size <= b
    ensures b % size == (b - size) % size
  {
    var q := (b - size) / size;
    assert b - size == q * size + (b - size) % size;
    assert b == (q + 1) * size + (b - size) % size;
    Remainder(b, size, q + 1, (b - size) % size);
  }

  lemma Small(b: nat, size: nat)
    requires b < size
    ensures b % size == b
  {
  }

  function SlabObjects(c: Cache, s: int): seq<int>
    requires c.size > 0
  {
    Objects(s * PAGE_SIZE, c.size, s * PAGE_SIZE + SlabBytes(c.order))
  }

  ghost predicate IsObject(c: Cache, a: int)
    requires c.size > 0
  {
    exists s :: s in c.slabs && a in SlabObjects(c, s)
  }

  function PageOf(a: int): int { a / PAGE_SIZE }

  // ---------- the invariant ----------

  // What one cache looks like: either an unused slot, or busy blocks of its order that
  // hold room for an object, every object of which is either free or live, not both.
  ghost predicate CacheInv(p: Pool, c: Cache)
    requires Shape(p)
  {
    if c.size == 0 then c == NO_CACHE
    else
      && c.size <= SlabBytes(c.order) && Formattable(c.size, SlabBytes(c.order))
      && c.slabs != [] && NoDup(c.slabs)
      && (forall s :: s in c.slabs ==> Live(p, s) && p.order[s] == c.order)
      && NoDup(c.avail)
      && (forall a :: a in c.avail ==> a !in c.live)
      && (forall a {:trigger IsObject(c, a)} {:trigger a in c.live} {:trigger a in c.avail} ::
            IsObject(c, a) <==> a in c.avail || a in c.live)
  }

  ghost predicate Apart2(c: Cache, d: Cache) {
    forall s :: s in c.slabs ==> s !in d.slabs
  }

  ghost predicate HeapInv(h: Heap) {
    && Sound(h.pool) && |h.owner| == |h.pool.order|
    && (forall i | 0 <= i < |h.caches| :: CacheInv(h.pool, h.caches[i]))
    && (forall i, j | 0 <= i < j < |h.caches| :: Apart2(h.caches[i], h.caches[j]))
    && (forall i, a | 0 <= i < |h.caches| && a in h.caches[i].live ::
          0 <= PageOf(a) < |h.owner| && h.owner[PageOf(a)] == i)
  }

  // ---------- operations ----------

  const MAX_WASTE: nat := PAGE_SIZE - 0x5a * PAGE_SIZE / 0x64
  const CACHE_MAX_ORDER: nat := 5

  // The order from k on whose share of waste covers the size; -1 if there is none.
  function OrderFrom(size: nat, k: nat): int
    requires k <= CACHE_MAX_ORDER + 1
    decreases CACHE_MAX_ORDER + 1 - k
  {
    if k > CACHE_MAX_ORDER then -1
    else if size <= MAX_WASTE * Pow2(k) then k
    else OrderFrom(size, k + 1)
  }

  // find_right_order finds the least order whose slab wastes at most a tenth on an
  // object of this size; above 13120 bytes there is none.
  function RightOrder(size: nat): int { OrderFrom(size, 0) }

  function CreateCache(h: Heap, i: nat, size: nat): Heap
    requires HeapInv(h) && i < |h.caches|
  {
    var order := RightOrder(size);
    if order == -1 then h
    else
      match AllocPages(h.pool, order)
      case None => h
      case Some((r, x)) => h.(pool := r, caches := h.caches[i := FreshCache(size, order, x)])
  }

  function FreshCache(size: nat, order: nat, x: int): Cache {
    Cache(size, order, [x],
          if size > 0 then Objects(x * PAGE_SIZE, size, x * PAGE_SIZE + SlabBytes(order)) else [], {})
  }

  // One more slab when no free object is left.
  function Refill(h: Heap, i: nat): Option<Heap>
    requires HeapInv(h) && i < |h.caches| && h.caches[i].size > 0
  {
    var c := h.caches[i];
    if c.avail != [] then Some(h)
    else
      match AllocPages(h.pool, c.order)
      case None => None
      case Some((r, x)) =>
        Some(h.(pool := r, caches := h.caches[i := c.(slabs := c.slabs + [x], avail := SlabObjects(c, x))]))
  }

  function TakeObject(h: Heap, i: nat): (r: (Heap, int))
    requires i < |h.caches| && h.caches[i].avail != []
  {
    var c := h.caches[i];
    var a := c.avail[0];
    (h.(caches := h.caches[i := c.(avail := c.avail[1..], live := c.live + {a})],
        owner := if 0 <= PageOf(a) < |h.owner| then h.owner[PageOf(a) := i] else h.owner), a)
  }

  function CacheAlloc(h: Heap, i: nat): (r: (Heap, int))
    requires HeapInv(h) && i < |h.caches| && h.caches[i].size > 0
  {
    match Refill(h, i)
    case None => (h, NULL)
    case Some(g) =>
      RefillInv(h, i);
      TakeObject(g, i)
  }

  function CacheFree(h: Heap, i: nat, a: int): Heap
    requires i < |h.caches|
  {
    var c := h.caches[i];
    h.(caches := h.caches[i := c.(avail := [a] + c.avail, live := c.live - {a})])
  }

  // ---------- slabs and objects do not overlap ----------

  lemma ObjectInSlab(c: Cache, s: int, a: int)
    requires c.size > 0 && a in SlabObjects(c, s)
    ensures s * PAGE_SIZE <= a && a + c.size <= s * PAGE_SIZE + SlabBytes(c.order)
    ensures s <= PageOf(a) < s + Pow2(c.order)
  {
    ObjectsFit(s * PAGE_SIZE, c.size, s * PAGE_SIZE + SlabBytes(c.order));
  }

  // Two slabs, of one cache or of two, share no byte.
  lemma SlabsApart(h: Heap, i: nat, s: int, j: nat, t: int)
    requires HeapInv(h) && i < |h.caches| && j < |h.caches|
    requires s in h.caches[i].slabs && t in h.caches[j].slabs && s != t
    ensures h.caches[i].size > 0 && h.caches[j].size > 0
    ensures s + Pow2(h.caches[i].order) <= t || t + Pow2(h.caches[j].order) <= s
  {
    assert CacheInv(h.pool, h.caches[i]) && CacheInv(h.pool, h.caches[j]);
    if s < t { Apart(h.pool.order, s, t); } else { Apart(h.pool.order, t, s); }
  }

  lemma OneOwner(h: Heap, i: nat, j: nat, s: int)
    requires HeapInv(h) && i < |h.caches| && j < |h.caches|
    requires s in h.caches[i].slabs && s in h.caches[j].slabs
    ensures i == j
  {
    var lo, hi := if i < j then i else j, if i < j then j else i;
    assert lo < hi ==> Apart2(h.caches[lo], h.caches[hi]);
  }

  // Two different objects, of one cache or of two, share no byte.
  lemma ObjectsApart(h: Heap, i: nat, a: int, j: nat, b: int)
    requires HeapInv(h) && i < |h.caches| && j < |h.caches| && h.caches[i].size > 0 && h.caches[j].size > 0
    requires IsObject(h.caches[i], a) && IsObject(h.caches[j], b) && (i != j || a != b)
    ensures a + h.caches[i].size <= b || b + h.caches[j].size <= a
  {
    hide HeapInv, SlabObjects, PageOf;
    var c, d := h.caches[i], h.caches[j];
    var s :| s in c.slabs && a in SlabObjects(c, s);
    var t :| t in d.slabs && b in SlabObjects(d, t);
    if s == t {
      OneOwner(h, i, j, s);
      SameSlabApart(c, s, a, b);
    } else {
      ObjectInSlab(c, s, a);
      ObjectInSlab(d, t, b);
      SlabsApart(h, i, s, j, t);
      BytesApart(s, c.order, t, d.order);
    }
  }

  lemma SameSlabApart(c: Cache, s: int, a: int, b: int)
    requires c.size > 0 && a in SlabObjects(c, s) && b in SlabObjects(c, s) && a != b
    ensures a + c.size <= b || b + c.size <= a
  {
    ObjectsFit(s * PAGE_SIZE, c.size, s * PAGE_SIZE + SlabBytes(c.order));
  }

  lemma BytesApart(s: int, o: nat, t: int, q: nat)
    requires s + Pow2(o) <= t || t + Pow2(q) <= s
    ensures s * PAGE_SIZE + SlabBytes(o) <= t * PAGE_SIZE || t * PAGE_SIZE + SlabBytes(q) <= s * PAGE_SIZE
  {
  }

  // ---------- the page pool underneath ----------

  // Busy blocks of p other than `but` are still busy blocks of the same order in r.
  ghost predicate BlocksKept(p: Pool, r: Pool, but: int)
    requires Shape(p) && Shape(r)
  {
    |r.order| == |p.order| &&
    forall b {:trigger Live(p, b)} {:trigger Live(r, b)} | Live(p, b) && b != but ::
      Live(r, b) && r.order[b] == p.order[b]
  }

  lemma AllocBlock(p: Pool, o: nat, r: Pool, x: int)
    requires Sound(p) && AllocPages(p, o) == Some((r, x))
    ensures Sound(r) && BlocksKept(p, r, -1)
    ensures Live(r, x) && r.order[x] == o && x + Pow2(o) <= |r.order| && !Live(p, x)
  {
    assert Inv(p, -1);
    hide DirtyExact, PageBusy, Get, AllocPages;
    AllocSound(p, o, r, x);
    var g := Get(p, o).value.0;
    AllocTakesExactly(p, o, g, x);
    BusyAreHeads(p);
    hide Inv;
  }

  lemma BusyAreHeads(p: Pool)
    requires Inv(p, -1)
    ensures Shape(p) && forall b | 0 <= b < |p.order| && p.busy[b] :: p.order[b] >= 0
  {
  }

  lemma FreeBlock(p: Pool, b: int)
    requires Sound(p) && Live(p, b)
    ensures Sound(FreePages(p, b)) && BlocksKept(p, FreePages(p, b), b)
    ensures !FreePages(p, b).busy[b]
  {
    FreeSound(p, b);
    assert b + Pow2(p.order[b]) <= |p.order| by { assert BlockAt(p.order, b); }
    var d := Mark(p.dirty, b, Pow2(p.order[b]), false);
    var u := p.(dirty := d);
    DirtyIrrelevant(p, d);
    FreeReleasesExactly(u, b);
  }

  lemma CacheKept(p: Pool, r: Pool, but: int, c: Cache)
    requires Shape(p) && Shape(r) && CacheInv(p, c) && BlocksKept(p, r, but) && but !in c.slabs
    ensures CacheInv(r, c)
  {
  }

  // Replacing one cache and the pool keeps the heap sound when the new cache is, no
  // other cache has its slabs, and the owners recorded are right.
  lemma ReplaceCache(h: Heap, i: nat, r: Pool, c: Cache, owner: seq<int>, but: int)
    requires HeapInv(h) && i < |h.caches| && Sound(r) && BlocksKept(h.pool, r, but)
    requires CacheInv(r, c) && |owner| == |h.owner|
    requires forall j | 0 <= j < |h.caches| && j != i ::
      but !in h.caches[j].slabs && Apart2(c, h.caches[j]) && Apart2(h.caches[j], c)
    requires forall a :: a in c.live ==> 0 <= PageOf(a) < |owner| && owner[PageOf(a)] == i
    requires forall j, a | 0 <= j < |h.caches| && j != i && a in h.caches[j].live ::
      0 <= PageOf(a) < |owner| && owner[PageOf(a)] == j
    ensures HeapInv(h.(pool := r, caches := h.caches[i := c], owner := owner))
  {
    forall j | 0 <= j < |h.caches| && j != i
      ensures CacheInv(r, h.caches[j])
    {
      CacheKept(h.pool, r, but, h.caches[j]);
    }
  }

  // ---------- one more slab ----------

  lemma RefillCache(p: Pool, c: Cache, r: Pool, x: int)
    requires Sound(p) && CacheInv(p, c) && c.size > 0 && c.avail == []
    requires AllocPages(p, c.order) == Some((r, x))
    ensures Shape(r) && CacheInv(r, c.(slabs := c.slabs + [x], avail := SlabObjects(c, x)))
    ensures SlabObjects(c, x) != []
  {
    AllocBlock(p, c.order, r, x);
    hide Sound, AllocPages;
    CacheKept(p, r, -1, c);
    SlabNew(r, c, x);
  }

  lemma SlabNew(r: Pool, c: Cache, x: int)
    requires Sound(r) && CacheInv(r, c) && c.size > 0 && c.avail == []
    requires Live(r, x) && r.order[x] == c.order && x !in c.slabs
    ensures CacheInv(r, c.(slabs := c.slabs + [x], avail := SlabObjects(c, x)))
    ensures SlabObjects(c, x) != []
  {
    var d := c.(slabs := c.slabs + [x], avail := SlabObjects(c, x));
    var start, end := x * PAGE_SIZE, x * PAGE_SIZE + SlabBytes(c.order);
    ObjectsFit(start, c.size, end);
    forall a | a in d.avail
      ensures a !in c.live
    {
      if a in c.live {
        assert IsObject(c, a);
        var s :| s in c.slabs && a in SlabObjects(c, s);
        ObjectInSlab(c, s, a);
        ObjectInSlab(c, x, a);
        if s < x { Apart(r.order, s, x); } else { Apart(r.order, x, s); }
      }
    }
    forall a
      ensures IsObject(d, a) <==> a in d.avail || a in d.live
    {
      assert forall s :: SlabObjects(d, s) == SlabObjects(c, s);
      if IsObject(d, a) {
        var s :| s in d.slabs && a in SlabObjects(d, s);
        if s != x { assert IsObject(c, a); }
      }
      if a in d.live { assert IsObject(c, a); }
      if a in d.avail { assert x in d.slabs; }
    }
  }

  lemma RefillInv(h: Heap, i: nat)
    requires HeapInv(h) && i < |h.caches| && h.caches[i].size > 0
    ensures Refill(h, i).Some? ==>
      var g := Refill(h, i).value;
      HeapInv(g) && |g.caches| == |h.caches| && g.caches[i].avail != [] && g.caches[i].size == h.caches[i].size
  {
    var c := h.caches[i];
    if c.avail == [] && AllocPages(h.pool, c.order).Some? {
      var (r, x) := AllocPages(h.pool, c.order).value;
      AllocBlock(h.pool, c.order, r, x);
      assert CacheInv(h.pool, c);
      RefillCache(h.pool, c, r, x);
      var d := c.(slabs := c.slabs + [x], avail := SlabObjects(c, x));
      forall j | 0 <= j < |h.caches| && j != i
        ensures Apart2(d, h.caches[j]) && Apart2(h.caches[j], d) && -1 !in h.caches[j].slabs
      {
        NewSlabApart(h, i, j, x);
      }
      ReplaceCache(h, i, r, d, h.owner, -1);
      assert h.(pool := r, caches := h.caches[i := d], owner := h.owner) == Refill(h, i).value;
    }
  }

  lemma NewSlabApart(h: Heap, i: nat, j: nat, x: int)
    requires HeapInv(h) && i < |h.caches| && j < |h.caches| && i != j
    requires !Live(h.pool, x)
    ensures forall s :: s in h.caches[i].slabs + [x] ==> s !in h.caches[j].slabs
    ensures -1 !in h.caches[j].slabs
  {
    assert CacheInv(h.pool, h.caches[j]);
    assert if i < j then Apart2(h.caches[i], h.caches[j]) else Apart2(h.caches[j], h.caches[i]);
  }
}
