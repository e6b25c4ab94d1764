// kmalloc, kfree and everything around them over every run.
module KmallocRuns {
  import opened Common
  import opened Powers
  import opened BuddySpec
  import opened BuddyTheorems
  import opened BuddyRuns
  import opened SlabSpec
  import opened SlabSteps

  const KMALLOC_CACHES: nat := 256
  const KMALLOC_MIN: nat := 32

  // The index macro: (size - 1) >> 5 on a 32-bit unsigned size.
  function KmallocIndex(size: nat): nat {
    (size + WORD_RANGE - 1) % WORD_RANGE / KMALLOC_MIN
  }

  // The i-th kmalloc cache holds objects of (i + 1) * 32 bytes.
  ghost predicate Booted(h: Heap) {
    |h.caches| >= KMALLOC_CACHES && forall i | 0 <= i < KMALLOC_CACHES :: h.caches[i].size == (i + 1) * KMALLOC_MIN
  }

  // A size is served exactly from 1 to 8192 bytes, from the smallest class that fits.
  lemma KmallocClass(size: nat)
    requires size < WORD_RANGE
    ensures KmallocIndex(size) < KMALLOC_CACHES <==> 1 <= size <= 8192
    ensures 1 <= size <= 8192 ==>
      var i := KmallocIndex(size); i * KMALLOC_MIN < size <= (i + 1) * KMALLOC_MIN
  {
    if size > 0 {
      assert (size + WORD_RANGE - 1) % WORD_RANGE == size - 1;
    }
  }

  // The cache of a live object, through the page it starts in.
  predicate LiveAt(h: Heap, a: int) {
    && 0 <= PageOf(a) < |h.owner|
    && 0 <= h.owner[PageOf(a)] < |h.caches|
    && a in h.caches[h.owner[PageOf(a)]].live
  }

  predicate IsSlab(h: Heap, b: int) {
    exists i | 0 <= i < |h.caches| :: b in h.caches[i].slabs
  }

  // kmalloc and kfree, kmem_cache_alloc and kmem_cache_free on any cache, alloc_pages and
  // free_pages by others, kmem_cache_create and kmem_cache_destroy.
  datatype Op =
    | Malloc(size: nat)
    | Free(a: int)
    | Draw(i: nat)
    | Return(i: nat, a: int)
    | Take(order: nat)
    | Give(page: int)
    | Create(i: nat, size: nat)
    | Destroy(i: nat)

  // What the callers of each operation have to respect.
  predicate Allowed(h: Heap, op: Op)
    requires HeapInv(h)
  {
    match op
    case Malloc(size) => size < WORD_RANGE &&
      (KmallocIndex(size) < KMALLOC_CACHES ==> KmallocIndex(size) < |h.caches| && h.caches[KmallocIndex(size)].size > 0)
    case Free(a) => LiveAt(h, a)
    case Draw(i) => i < |h.caches| && h.caches[i].size > 0
    case Return(i, a) => i < |h.caches| && a in h.caches[i].live
    case Take(o) => true
    case Give(b) => Live(h.pool, b) && !IsSlab(h, b)
    case Create(i, size) => i < |h.caches| && h.caches[i].size == 0 && Creatable(size)
    case Destroy(i) => i < |h.caches| && h.caches[i].size > 0
  }

  function Kmalloc(h: Heap, size: nat): (r: (Heap, int))
    requires HeapInv(h) && Allowed(h, Malloc(size))
  {
    if KmallocIndex(size) >= KMALLOC_CACHES then (h, NULL) else CacheAlloc(h, KmallocIndex(size))
  }

  function Kfree(h: Heap, a: int): Heap
    requires HeapInv(h) && LiveAt(h, a)
  {
    CacheFree(h, h.owner[PageOf(a)], a)
  }

  function Step(h: Heap, op: Op): (r: Heap)
    requires HeapInv(h) && Allowed(h, op)
  {
    match op
    case Malloc(size) => Kmalloc(h, size).0
    case Free(a) => Kfree(h, a)
    case Draw(i) => CacheAlloc(h, i).0
    case Return(i, a) => CacheFree(h, i, a)
    case Take(o) =>
      (match AllocPages(h.pool, o)
       case None => h
       case Some((r, x)) => h.(pool := r))
    case Give(b) => h.(pool := FreePages(h.pool, b))
    case Create(i, size) => CreateCache(h, i, size)
    case Destroy(i) => DestroyCache(h, i)
  }

  lemma PoolInv(h: Heap, r: Pool, but: int)
    requires HeapInv(h) && Sound(r) && BlocksKept(h.pool, r, but) && !IsSlab(h, but)
    ensures HeapInv(h.(pool := r))
  {
    forall i | 0 <= i < |h.caches|
      ensures CacheInv(r, h.caches[i])
    {
      CacheKept(h.pool, r, but, h.caches[i]);
    }
  }

  lemma StepInv(h: Heap, op: Op)
    requires HeapInv(h) && Allowed(h, op)
    ensures HeapInv(Step(h, op))
  {
    match op
    case Malloc(size) =>
      if KmallocIndex(size) < KMALLOC_CACHES { AllocInv(h, KmallocIndex(size)); }
    case Free(a) => FreeInv(h, h.owner[PageOf(a)], a);
    case Draw(i) => AllocInv(h, i);
    case Return(i, a) => FreeInv(h, i, a);
    case Take(o) =>
      if AllocPages(h.pool, o).Some? {
        AllocBlock(h.pool, o, AllocPages(h.pool, o).value.0, AllocPages(h.pool, o).value.1);
        NoSlabNull(h);
        PoolInv(h, AllocPages(h.pool, o).value.0, -1);
      }
    case Give(b) =>
      FreeBlock(h.pool, b);
      PoolInv(h, FreePages(h.pool, b), b);
    case Create(i, size) => CreateInv(h, i, size);
    case Destroy(i) => DestroyInv(h, i);
  }

  lemma NoSlabNull(h: Heap)
    requires HeapInv(h)
    ensures !IsSlab(h, -1)
  {
    forall i | 0 <= i < |h.caches|
      ensures -1 !in h.caches[i].slabs
    {
      assert CacheInv(h.pool, h.caches[i]);
    }
  }

  // ---------- every run ----------

  // Operations whose callers break the rules are not steps of a run.
  function Run(h: Heap, ops: seq<Op>): (r: Heap)
    requires HeapInv(h)
    decreases |ops|
  {
    if ops == [] then h
    else if Allowed(h, ops[0]) then
      StepInv(h, ops[0]);
      Run(Step(h, ops[0]), ops[1..])
    else Run(h, ops[1..])
  }

  function Boot(pages: nat, slots: nat): Heap {
    Heap(Init(pages), seq(slots, _ => NO_CACHE), seq(pages, _ => -1))
  }

  lemma BootInv(pages: nat, slots: nat)
    ensures HeapInv(Boot(pages, slots))
  {
    InitSound(pages);
  }

  lemma {:induction false} RunInv(h: Heap, ops: seq<Op>)
    requires HeapInv(h)
    ensures HeapInv(Run(h, ops))
    decreases |ops|
  {
    if ops != [] {
      if Allowed(h, ops[0]) {
        StepInv(h, ops[0]);
        hide HeapInv;
        RunInv(Step(h, ops[0]), ops[1..]);
      } else {
        RunInv(h, ops[1..]);
      }
    }
  }

  // The bytes of a live object of cache i.
  ghost predicate LiveObject(h: Heap, i: int, a: int) {
    0 <= i < |h.caches| && a in h.caches[i].live
  }

  // In every reachable state the live objects of all caches occupy disjoint bytes, each
  // inside one slab of its cache, and kfree finds the cache of each through its page.
  lemma LiveObjectsDisjoint(pages: nat, slots: nat, ops: seq<Op>)
    ensures HeapInv(Boot(pages, slots))
    ensures var h := Run(Boot(pages, slots), ops);
      && (forall i, a, j, b | LiveObject(h, i, a) && LiveObject(h, j, b) && (i != j || a != b) ::
            a + h.caches[i].size <= b || b + h.caches[j].size <= a)
      && (forall i, a | LiveObject(h, i, a) :: LiveAt(h, a) && h.owner[PageOf(a)] == i && InOneSlab(h, i, a))
  {
    BootInv(pages, slots);
    RunInv(Boot(pages, slots), ops);
    var h := Run(Boot(pages, slots), ops);
    forall i, a, j, b | LiveObject(h, i, a) && LiveObject(h, j, b) && (i != j || a != b)
      ensures a + h.caches[i].size <= b || b + h.caches[j].size <= a
    {
      LiveApart(h, i, a, j, b);
    }
    forall i, a | LiveObject(h, i, a)
      ensures InOneSlab(h, i, a)
    {
      LiveInSlab(h, i, a);
    }
  }

  ghost predicate InOneSlab(h: Heap, i: int, a: int)
    requires 0 <= i < |h.caches|
  {
    exists s :: s in h.caches[i].slabs && Head(h.pool.order, s) && h.pool.order[s] == h.caches[i].order &&
      s * PAGE_SIZE <= a && a + h.caches[i].size <= s * PAGE_SIZE + SlabBytes(h.caches[i].order)
  }

  lemma LiveInSlab(h: Heap, i: int, a: int)
    requires HeapInv(h) && LiveObject(h, i, a)
    ensures InOneSlab(h, i, a)
  {
    var c := h.caches[i];
    assert CacheInv(h.pool, c) && IsObject(c, a);
    var s :| s in c.slabs && a in SlabObjects(c, s);
    ObjectInSlab(c, s, a);
  }

  lemma LiveApart(h: Heap, i: int, a: int, j: int, b: int)
    requires HeapInv(h) && LiveObject(h, i, a) && LiveObject(h, j, b) && (i != j || a != b)
    ensures a + h.caches[i].size <= b || b + h.caches[j].size <= a
  {
    assert CacheInv(h.pool, h.caches[i]) && CacheInv(h.pool, h.caches[j]);
    assert IsObject(h.caches[i], a) && IsObject(h.caches[j], b);
    ObjectsApart(h, i, a, j, b);
  }

  // ---------- the kmalloc classes ----------

  // Every kmalloc class can be formatted: what is left of its slab is a multiple of 32.
  lemma ClassCreatable(i: nat)
    ensures Creatable((i + 1) * KMALLOC_MIN)
  {
    var size := (i + 1) * KMALLOC_MIN;
    if RightOrder(size) >= 0 {
      RestOfSlab(128 * Pow2(RightOrder(size)), i + 1);
    }
  }

  lemma RestOfSlab(units: nat, m: nat)
    requires m > 0
    ensures units * 32 % (m * 32) == units % m * 32
  {
    var q := units / m;
    assert units == q * m + units % m;
    assert q * (m * 32) == q * m * 32;
    Remainder(units * 32, m * 32, q, units % m * 32);
  }

  lemma CreateElsewhere(h: Heap, i: nat, size: nat)
    requires HeapInv(h) && i < |h.caches| && Creatable(size)
    ensures |CreateCache(h, i, size).caches| == |h.caches|
    ensures forall j | 0 <= j < |h.caches| && j != i :: CreateCache(h, i, size).caches[j] == h.caches[j]
  {
    RightOrderLeast(size);
  }

  // The slots from class i on hold no cache yet.
  ghost predicate Unbuilt(h: Heap, i: nat) {
    HeapInv(h) && |h.caches| == KMALLOC_CACHES && i <= KMALLOC_CACHES &&
    (forall j | 0 <= j < i :: h.caches[j].size == (j + 1) * KMALLOC_MIN) &&
    forall j | i <= j < KMALLOC_CACHES :: h.caches[j].size == 0
  }

  // kmalloc_init from class i on: one cache after another, up to the first that fails.
  function BootClasses(h: Heap, i: nat): (r: (Heap, bool))
    requires Unbuilt(h, i)
    decreases KMALLOC_CACHES - i
  {
    if i == KMALLOC_CACHES then (h, true)
    else
      ClassBuilt(h, i);
      var g := CreateCache(h, i, (i + 1) * KMALLOC_MIN);
      if g.caches[i].size == 0 then (h, false) else BootClasses(g, i + 1)
  }

  lemma ClassBuilt(h: Heap, i: nat)
    requires Unbuilt(h, i) && i < KMALLOC_CACHES
    ensures Creatable((i + 1) * KMALLOC_MIN)
    ensures var g := CreateCache(h, i, (i + 1) * KMALLOC_MIN);
      && HeapInv(g) && |g.caches| == |h.caches| && (g.caches[i].size != 0 ==> Unbuilt(g, i + 1))
      && (g.caches[i].size == 0 <==> AllocPages(h.pool, ClassOrder(i)).None?)
  {
    ClassCreatable(i);
    RightOrderLeast((i + 1) * KMALLOC_MIN);
    CreateInv(h, i, (i + 1) * KMALLOC_MIN);
    CreateElsewhere(h, i, (i + 1) * KMALLOC_MIN);
    hide HeapInv;
  }

  // The order of the slabs of class i.
  function ClassOrder(i: nat): nat {
    var o := RightOrder((i + 1) * KMALLOC_MIN);
    if o < 0 then 0 else o
  }

  lemma BootClassesStep(h: Heap, i: nat)
    requires Unbuilt(h, i)
    ensures i == KMALLOC_CACHES ==> BootClasses(h, i) == (h, true)
    ensures i < KMALLOC_CACHES ==>
      && HeapInv(h) && |h.caches| == KMALLOC_CACHES && h.caches[i].size == 0 && Creatable((i + 1) * KMALLOC_MIN)
      && var g := CreateCache(h, i, (i + 1) * KMALLOC_MIN);
      && (g.caches[i].size != 0 ==> Unbuilt(g, i + 1) && BootClasses(h, i) == BootClasses(g, i + 1))
      && (g.caches[i].size == 0 ==> BootClasses(h, i) == (h, false))
  {
    if i < KMALLOC_CACHES {
      ClassBuilt(h, i);
      hide HeapInv, CreateCache;
    }
  }

  lemma BootUnbuilt(pages: nat)
    ensures Unbuilt(Boot(pages, KMALLOC_CACHES), 0)
  {
    BootInv(pages, KMALLOC_CACHES);
  }

  // kmalloc_init succeeds with all 256 classes in place, or stops at the class for which
  // the pool has no block of the order it needs.
  lemma {:induction false} BootClassesResult(h: Heap, i: nat)
    requires Unbuilt(h, i)
    ensures var (g, ok) := BootClasses(h, i);
      && HeapInv(g) && (ok ==> Booted(g))
      && (!ok ==> exists c | i <= c < KMALLOC_CACHES :: Unbuilt(g, c) && AllocPages(g.pool, ClassOrder(c)).None?)
    decreases KMALLOC_CACHES - i
  {
    hide HeapInv, CreateCache, BootClasses;
    BootClassesStep(h, i);
    if i < KMALLOC_CACHES {
      ClassBuilt(h, i);
      var g := CreateCache(h, i, (i + 1) * KMALLOC_MIN);
      if g.caches[i].size != 0 {
        BootClassesResult(g, i + 1);
      }
    }
  }

  // ---------- one kmalloc and one kfree ----------

  // kmalloc either returns NULL and changes nothing, or makes one new object live that
  // overlaps no live object and has room for the request; nothing else changes hands.
  lemma KmallocResult(h: Heap, size: nat)
    requires HeapInv(h) && Booted(h) && size < WORD_RANGE
    ensures Allowed(h, Malloc(size))
    ensures var (g, a) := Kmalloc(h, size);
      && (a == NULL <==> !(1 <= size <= 8192) || CannotRefill(h, KmallocIndex(size)))
      && (a == NULL ==> g == h)
      && (a != NULL ==>
           var i := KmallocIndex(size);
           && |g.caches| == |h.caches| && Booted(g)
           && g.caches[i].live == h.caches[i].live + {a} && size <= g.caches[i].size < size + KMALLOC_MIN
           && (forall j | 0 <= j < |h.caches| && j != i :: g.caches[j] == h.caches[j])
           && (forall j, b | LiveObject(h, j, b) :: a + g.caches[i].size <= b || b + h.caches[j].size <= a))
  {
    KmallocClass(size);
    if 1 <= size <= 8192 {
      var i := KmallocIndex(size);
      AllocResult(h, i);
      var (g, a) := Kmalloc(h, size);
      if Refill(h, i).Some? {
        AllocInv(h, i);
        forall j, b | LiveObject(h, j, b)
          ensures a + g.caches[i].size <= b || b + h.caches[j].size <= a
        {
          LiveApart(g, i, a, j, b);
        }
      }
    }
  }

  ghost predicate CannotRefill(h: Heap, i: nat)
    requires HeapInv(h) && i < |h.caches|
  {
    h.caches[i].avail == [] && forall b, k | h.caches[i].order <= k <= MAX_ORDER :: !FreeHead(h.pool, b, k)
  }

  lemma AllocResult(h: Heap, i: nat)
    requires HeapInv(h) && i < |h.caches| && h.caches[i].size > 0
    ensures var (g, a) := CacheAlloc(h, i);
      && (a == NULL <==> CannotRefill(h, i)) && (a == NULL <==> Refill(h, i).None?) && (a == NULL ==> g == h)
      && (a != NULL ==>
           && |g.caches| == |h.caches| && g.caches[i].size == h.caches[i].size
           && g.caches[i].live == h.caches[i].live + {a} && a !in h.caches[i].live
           && (forall j | 0 <= j < |h.caches| && j != i :: g.caches[j] == h.caches[j]))
  {
    hide HeapInv, Refill, FreeHead;
    RefillResult(h, i);
    RefillInv(h, i);
    if Refill(h, i).Some? {
      FirstFree(Refill(h, i).value, i);
    }
  }

  lemma RefillResult(h: Heap, i: nat)
    requires HeapInv(h) && i < |h.caches| && h.caches[i].size > 0
    ensures Refill(h, i).None? <==> CannotRefill(h, i)
    ensures Refill(h, i).Some? ==>
      var g := Refill(h, i).value;
      && |g.caches| == |h.caches| && g.caches[i].size == h.caches[i].size && g.caches[i].live == h.caches[i].live
      && forall j | 0 <= j < |h.caches| && j != i :: g.caches[j] == h.caches[j]
  {
    AllocPagesFails(h.pool, h.caches[i].order);
    HeapParts(h);
    hide HeapInv, AllocPages, SlabObjects, FreeHead;
  }

  lemma HeapParts(h: Heap)
    requires HeapInv(h)
    ensures Inv(h.pool, -1)
  {
  }

  lemma HeapSound(h: Heap)
    requires HeapInv(h)
    ensures Sound(h.pool)
  {
  }

  lemma AllocPagesFails(p: Pool, o: nat)
    requires Inv(p, -1)
    ensures Shape(p) && (AllocPages(p, o).None? <==> forall h, k | o <= k <= MAX_ORDER :: !FreeHead(p, h, k))
  {
    AllocFailsExactly(p, o);
    hide Inv, Get, FreeHead;
  }

  // The first free object is a place in memory and not live.
  lemma FirstFree(h: Heap, i: nat)
    requires HeapInv(h) && i < |h.caches| && h.caches[i].size > 0 && h.caches[i].avail != []
    ensures var a := h.caches[i].avail[0];
      a != NULL && a !in h.caches[i].live && 0 <= PageOf(a) < |h.owner|
  {
    var c := h.caches[i];
    assert CacheInv(h.pool, c);
    assert c.avail[0] in c.avail && IsObject(c, c.avail[0]);
    PageInPool(h, i, c.avail[0]);
  }

  // kfree through the page of a live object ends the life of that object only.
  lemma KfreeResult(h: Heap, i: nat, a: int)
    requires HeapInv(h) && LiveObject(h, i, a)
    ensures LiveAt(h, a)
    ensures var g := Kfree(h, a);
      && HeapInv(g) && g.pool == h.pool && g.owner == h.owner && |g.caches| == |h.caches|
      && g.caches[i].live == h.caches[i].live - {a} && g.caches[i].avail == [a] + h.caches[i].avail
      && g.caches[i].size == h.caches[i].size
      && (forall j | 0 <= j < |h.caches| && j != i :: g.caches[j] == h.caches[j])
  {
    assert h.owner[PageOf(a)] == i;
    FreeInv(h, i, a);
  }

  // Allocating right after freeing hands the same object out again and restores the heap.
  lemma FreeThenMalloc(h: Heap, i: nat, a: int)
    requires HeapInv(h) && LiveObject(h, i, a)
    ensures var g := CacheFree(h, i, a);
      HeapInv(g) && g.caches[i].size > 0 && CacheAlloc(g, i) == (h, a)
  {
    FreeInv(h, i, a);
    var g := CacheFree(h, i, a);
    assert CacheInv(h.pool, h.caches[i]);
    var c := h.caches[i];
    assert ([a] + c.avail)[1..] == c.avail;
    assert c.live - {a} + {a} == c.live;
    assert g.owner[PageOf(a) := i] == h.owner;
    assert CacheAlloc(g, i).0.caches == h.caches;
  }

  // ---------- objects and classes over runs ----------

  // The operation neither frees the object a nor destroys its cache i.
  predicate Spares(op: Op, i: nat, a: int) {
    match op
    case Free(b) => b != a
    case Return(_, b) => b != a
    case Destroy(j) => j != i
    case _ => true
  }

  predicate AllSpare(ops: seq<Op>, i: nat, a: int) {
    forall op :: op in ops ==> Spares(op, i, a)
  }

  // A cache keeps the size of its objects until it is destroyed.
  lemma StepKeepsSize(h: Heap, op: Op, i: nat)
    requires HeapInv(h) && Allowed(h, op) && i < |h.caches| && h.caches[i].size > 0 && op != Destroy(i)
    ensures |Step(h, op).caches| == |h.caches| && Step(h, op).caches[i].size == h.caches[i].size
  {
    match op
    case Malloc(size) =>
      if KmallocIndex(size) < KMALLOC_CACHES { AllocResult(h, KmallocIndex(size)); }
    case Free(a) => KfreeResult(h, h.owner[PageOf(a)], a);
    case Draw(j) => AllocResult(h, j);
    case Create(j, size) => CreateElsewhere(h, j, size);
    case Return(_, _) =>
    case Take(_) =>
    case Give(_) =>
    case Destroy(_) =>
  }

  lemma StepKeepsObject(h: Heap, op: Op, i: nat, a: int)
    requires HeapInv(h) && Allowed(h, op) && LiveObject(h, i, a) && Spares(op, i, a)
    ensures HeapInv(Step(h, op)) && LiveObject(Step(h, op), i, a)
    ensures Step(h, op).caches[i].size == h.caches[i].size
  {
    StepInv(h, op);
    assert CacheInv(h.pool, h.caches[i]);
    hide HeapInv, CacheInv;
    StepKeepsSize(h, op, i);
    match op
    case Malloc(size) =>
      if KmallocIndex(size) < KMALLOC_CACHES { AllocResult(h, KmallocIndex(size)); }
    case Free(b) => KfreeResult(h, h.owner[PageOf(b)], b);
    case Draw(j) => AllocResult(h, j);
    case Create(j, size) => CreateElsewhere(h, j, size);
    case Return(_, _) =>
    case Take(_) =>
    case Give(_) =>
    case Destroy(_) =>
  }

  // An object stays live, with the room it had, until it is freed or its cache destroyed.
  lemma {:induction false} RunKeepsObject(h: Heap, ops: seq<Op>, i: nat, a: int)
    requires HeapInv(h) && LiveObject(h, i, a) && AllSpare(ops, i, a)
    ensures LiveObject(Run(h, ops), i, a) && Run(h, ops).caches[i].size == h.caches[i].size
    decreases |ops|
  {
    hide HeapInv, LiveObject;
    if ops != [] {
      assert ops[0] in ops;
      if Allowed(h, ops[0]) {
        StepKeepsObject(h, ops[0], i, a);
        RunKeepsObject(Step(h, ops[0]), ops[1..], i, a);
      } else {
        RunKeepsObject(h, ops[1..], i, a);
      }
    }
  }

  predicate ClassesSpared(ops: seq<Op>) {
    forall op :: op in ops && op.Destroy? ==> op.i >= KMALLOC_CACHES
  }

  // The classes stand as long as none is destroyed: their slots are taken.
  lemma {:induction false} RunKeepsBooted(h: Heap, ops: seq<Op>)
    requires HeapInv(h) && Booted(h) && ClassesSpared(ops)
    ensures Booted(Run(h, ops))
    decreases |ops|
  {
    hide HeapInv;
    if ops != [] {
      assert ops[0] in ops;
      if Allowed(h, ops[0]) {
        StepInv(h, ops[0]);
        forall i | 0 <= i < KMALLOC_CACHES
          ensures |Step(h, ops[0]).caches| == |h.caches|
          ensures Step(h, ops[0]).caches[i].size == (i + 1) * KMALLOC_MIN
        {
          StepKeepsSize(h, ops[0], i);
        }
        assert |Step(h, ops[0]).caches| == |h.caches| by { StepKeepsSize(h, ops[0], 0); }
        hide Step, Allowed;
        RunKeepsBooted(Step(h, ops[0]), ops[1..]);
      } else {
        RunKeepsBooted(h, ops[1..]);
      }
    }
  }

  // In any run from a booted heap that destroys no class, what kmalloc returned has room
  // for the request until it is freed, and the classes stand throughout.
  lemma RoomKept(h: Heap, size: nat, ops: seq<Op>)
    requires HeapInv(h) && Booted(h) && size < WORD_RANGE && ClassesSpared(ops)
    ensures Allowed(h, Malloc(size)) && HeapInv(Kmalloc(h, size).0)
    ensures Booted(Run(Kmalloc(h, size).0, ops))
    ensures var (g, a) := Kmalloc(h, size); var i := KmallocIndex(size);
      a != NULL && AllSpare(ops, i, a) ==>
        LiveObject(Run(g, ops), i, a) && size <= Run(g, ops).caches[i].size < size + KMALLOC_MIN
  {
    KmallocResult(h, size);
    StepInv(h, Malloc(size));
    var (g, a) := Kmalloc(h, size);
    hide HeapInv, Allowed, CannotRefill;
    RunKeepsBooted(g, ops);
    if a != NULL && AllSpare(ops, KmallocIndex(size), a) {
      RunKeepsObject(g, ops, KmallocIndex(size), a);
    }
  }
}
