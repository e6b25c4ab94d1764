// Finding the current task from the stack pointer needs task memory at a multiple of its
// size, which kmalloc gives exactly as far as the page pool keeps slabs on even pages.
module TaskMemory {
  import opened Powers
  import opened BuddySpec
  import opened BuddyAligned
  import opened SlabSpec
  import opened SlabSteps
  import opened KmallocRuns

  const TASK_SIZE: nat := 8192

  // current_task_info: the stack pointer is decreasing, so it starts behind the memory.
  function CurrentTask(sp: nat): nat
    requires sp > 0
  {
    (sp - 1) / TASK_SIZE * TASK_SIZE
  }

  // Every stack pointer into the memory at t leads to t exactly when t is aligned.
  lemma CurrentTaskExactly(t: nat)
    ensures (forall sp | t < sp <= t + TASK_SIZE :: CurrentTask(sp) == t) <==> t % TASK_SIZE == 0
  {
    if t % TASK_SIZE == 0 {
      forall sp | t < sp <= t + TASK_SIZE ensures CurrentTask(sp) == t {
        assert t == t / TASK_SIZE * TASK_SIZE;
      }
    } else {
      assert CurrentTask(t + 1) != t;
    }
  }

  // What kmalloc gives for a task is a slab of 32 pages in objects of that size.
  lemma TaskClass()
    ensures KmallocIndex(TASK_SIZE) == 255 && (255 + 1) * KMALLOC_MIN == TASK_SIZE
    ensures RightOrder(TASK_SIZE) == 5 && Pow2(5) == 32
  {
    Pow2Small();
    RightOrderLeast(TASK_SIZE);
  }

  // An object of the size of a task is aligned exactly when its slab starts at an even
  // page; it is when the blocks of the pool are aligned.
  lemma TaskAlignedExactly(h: Heap, i: int, a: int, base: nat) returns (s: int)
    requires HeapInv(h) && LiveObject(h, i, a) && h.caches[i].size == TASK_SIZE && base % TASK_SIZE == 0
    ensures s in h.caches[i].slabs && Head(h.pool.order, s) && 0 <= a
    ensures s * PAGE_SIZE <= a && a + TASK_SIZE <= s * PAGE_SIZE + SlabBytes(h.caches[i].order)
    ensures (base + a) % TASK_SIZE == 0 <==> s % 2 == 0
    ensures Aligned(h.pool.order) ==> (base + a) % TASK_SIZE == 0
  {
    var c := h.caches[i];
    assert CacheInv(h.pool, c) && IsObject(c, a);
    s :| s in c.slabs && a in SlabObjects(c, s);
    hide HeapInv, CacheInv, IsObject;
    ObjectInSlab(c, s, a);
    var k :| 0 <= k < |SlabObjects(c, s)| && SlabObjects(c, s)[k] == a;
    ObjectsAt(s * PAGE_SIZE, c.size, s * PAGE_SIZE + SlabBytes(c.order), k);
    EvenPage(base, s, k);
    if Aligned(h.pool.order) {
      AlignedAt(h.pool.order, s);
      LargeSlab(c.order);
      EvenStart(s, c.order);
    }
  }

  // What kmalloc returns for a task on a booted heap is found from every stack pointer into
  // it exactly when its slab starts at an even page; it always is while blocks are aligned.
  lemma TaskFoundExactly(h: Heap, base: nat) returns (s: int)
    requires HeapInv(h) && Booted(h) && base % TASK_SIZE == 0
    ensures Allowed(h, Malloc(TASK_SIZE))
    ensures var (g, a) := Kmalloc(h, TASK_SIZE);
      a != NULL ==>
        && HeapInv(g) && Booted(g) && LiveObject(g, 255, a) && a >= 0
        && s in g.caches[255].slabs && s * PAGE_SIZE <= a < s * PAGE_SIZE + SlabBytes(g.caches[255].order)
        && ((forall sp | base + a < sp <= base + a + TASK_SIZE :: CurrentTask(sp) == base + a) <==> s % 2 == 0)
        && (Aligned(h.pool.order) ==> s % 2 == 0)
  {
    hide HeapInv, Allowed, Kmalloc, Aligned, Booted;
    TaskGiven(h);
    KmallocAligned(h);
    var (g, a) := Kmalloc(h, TASK_SIZE);
    s := 0;
    if a != NULL {
      s := TaskAlignedExactly(g, 255, a, base);
      CurrentTaskExactly(base + a);
    }
  }

  lemma TaskGiven(h: Heap)
    requires HeapInv(h) && Booted(h)
    ensures Allowed(h, Malloc(TASK_SIZE))
    ensures var (g, a) := Kmalloc(h, TASK_SIZE);
      a != NULL ==>
        HeapInv(g) && Booted(g) && LiveObject(g, 255, a) && |g.caches| > 255 && g.caches[255].size == TASK_SIZE
  {
    TaskClass();
    KmallocResult(h, TASK_SIZE);
    StepInv(h, Malloc(TASK_SIZE));
    hide HeapInv, Allowed, CannotRefill;
  }

  lemma KmallocAligned(h: Heap)
    requires HeapInv(h) && Booted(h) && Allowed(h, Malloc(TASK_SIZE))
    ensures Aligned(h.pool.order) ==> Aligned(Kmalloc(h, TASK_SIZE).0.pool.order)
  {
    TaskClass();
    HeapParts(h);
    var o := h.caches[255].order;
    if Aligned(h.pool.order) && AllocPages(h.pool, o).Some? {
      AllocAligned(h.pool, o, AllocPages(h.pool, o).value.0, AllocPages(h.pool, o).value.1);
    }
    hide HeapInv, Inv, AllocPages, Aligned;
  }

  lemma EvenPage(base: nat, s: nat, k: nat)
    requires base % TASK_SIZE == 0
    ensures (base + (s * PAGE_SIZE + k * TASK_SIZE)) % TASK_SIZE == 0 <==> s % 2 == 0
  {
    var q, d := s / 2, s % 2;
    assert s * PAGE_SIZE == q * TASK_SIZE + d * PAGE_SIZE;
    assert base == base / TASK_SIZE * TASK_SIZE;
    assert base + (s * PAGE_SIZE + k * TASK_SIZE) == (base / TASK_SIZE + q + k) * TASK_SIZE + d * PAGE_SIZE;
  }

  lemma LargeSlab(order: nat)
    requires TASK_SIZE <= SlabBytes(order)
    ensures order >= 1
  {
  }

  lemma EvenStart(s: nat, order: nat)
    requires order >= 1 && Multiple(s, order)
    ensures s % 2 == 0
  {
    MultipleLess(s, 1, order);
    assert Pow2(1) == 2;
  }
}
