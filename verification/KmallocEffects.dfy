// What each operation of a run does to the heap: which objects, caches and pages change
// hands, and that nothing else does.
module KmallocEffects {
  import opened Common
  import opened Powers
  import opened BuddySpec
  import opened BuddyTheorems
  import BuddyRuns
  import opened SlabSpec
  import opened SlabSteps
  import opened KmallocRuns

  lemma RunOnce(h: Heap, op: Op)
    requires HeapInv(h)
    ensures HeapInv(Run(h, [op])) && Run(h, [op]) == if Allowed(h, op) then Step(h, op) else h
  {
    RunInv(h, [op]);
    assert [op][1..] == [];
    if Allowed(h, op) { StepInv(h, op); }
    hide HeapInv, Step, Allowed;
  }

  // All caches but the i-th are the same.
  ghost predicate OthersKept(h: Heap, g: Heap, i: nat) {
    |g.caches| == |h.caches| && forall j | 0 <= j < |h.caches| && j != i :: g.caches[j] == h.caches[j]
  }

  // The i-th cache is the same but for its free and live objects.
  ghost predicate SameSlabs(h: Heap, g: Heap, i: nat)
    requires i < |h.caches| && i < |g.caches|
  {
    var c, d := h.caches[i], g.caches[i];
    d.size == c.size && d.order == c.order && d.slabs == c.slabs
  }

  // Freeing a live object, through kfree or from its cache, takes exactly that object out
  // of the live ones and puts it in front of the free ones. Freeing what is not live
  // changes nothing.
  lemma FreeEffect(h: Heap, i: nat, a: int)
    requires HeapInv(h)
    ensures Run(h, [Return(i, a)]) == (if LiveObject(h, i, a) then Run(h, [Free(a)]) else h)
    ensures LiveObject(h, i, a) ==>
      var g := Run(h, [Free(a)]);
      && HeapInv(g) && g.pool == h.pool && g.owner == h.owner && OthersKept(h, g, i) && SameSlabs(h, g, i)
      && g.caches[i].live == h.caches[i].live - {a} && g.caches[i].avail == [a] + h.caches[i].avail
      && !LiveObject(g, i, a)
    ensures (forall j :: !LiveObject(h, j, a)) ==> Run(h, [Free(a)]) == h
  {
    RunOnce(h, Return(i, a));
    RunOnce(h, Free(a));
    if LiveObject(h, i, a) {
      KfreeResult(h, i, a);
      OwnerIs(h, i, a);
      hide HeapInv, Run;
    } else {
      hide HeapInv, Run;
      if LiveAt(h, a) { assert LiveObject(h, h.owner[PageOf(a)], a); }
    }
  }

  lemma OwnerIs(h: Heap, i: nat, a: int)
    requires HeapInv(h) && LiveObject(h, i, a)
    ensures 0 <= PageOf(a) < |h.owner| && h.owner[PageOf(a)] == i
  {
  }

  // As many objects as fit, one behind the other.
  predicate InRow(objects: seq<int>, start: int, size: nat, bytes: nat)
    requires size > 0
  {
    |objects| == bytes / size && forall k | 0 <= k < |objects| :: objects[k] == start + k * size
  }

  // An object drawn from a cache: one that was free, or the first of one further slab; the
  // cache stays as it is exactly when it has neither.
  lemma DrawEffect(h: Heap, i: nat) returns (a: int)
    requires HeapInv(h) && i < |h.caches| && h.caches[i].size > 0
    ensures CannotRefill(h, i) ==> Run(h, [Draw(i)]) == h
    ensures !CannotRefill(h, i) ==>
      var g := Run(h, [Draw(i)]); var c := h.caches[i];
      && HeapInv(g) && OthersKept(h, g, i) && !LiveObject(h, i, a) && g.caches[i].live == c.live + {a}
      && 0 <= PageOf(a) < |h.owner| && g.owner == h.owner[PageOf(a) := i]
      && (c.avail != [] ==>
            g.pool == h.pool && SameSlabs(h, g, i) && a == c.avail[0] && g.caches[i].avail == c.avail[1..])
      && (c.avail == [] ==>
            && Grown(h.pool, g.pool, c.order, a / PAGE_SIZE) && a % PAGE_SIZE == 0
            && g.caches[i].slabs == c.slabs + [a / PAGE_SIZE] && g.caches[i].order == c.order
            && g.caches[i].size == c.size && InRow([a] + g.caches[i].avail, a, c.size, SlabBytes(c.order)))
  {
    RunOnce(h, Draw(i));
    a := 0;
    hide CannotRefill, Run;
    AllocResult(h, i);
    if !CannotRefill(h, i) {
      AllocInv(h, i);
      a := CacheAlloc(h, i).1;
      if h.caches[i].avail == [] {
        DrawGrows(h, i);
      } else {
        DrawTakes(h, i);
      }
      DrawOwns(h, i);
    }
    hide HeapInv, Refill;
  }

  // The pool has given 2^o of its free pages, those from x on, as one busy block.
  ghost predicate Grown(p: Pool, r: Pool, o: nat, x: int) {
    && Shape(p) && Shape(r) && BuddyRuns.Sound(r) && Live(r, x) && r.order[x] == o && !Live(p, x)
    && (forall i :: i in BuddyRuns.FreeSet(r) <==> i in BuddyRuns.FreeSet(p) && !(x <= i < x + Pow2(o)))
    && (forall i | x <= i < x + Pow2(o) :: i in BuddyRuns.FreeSet(p))
    && (forall b | Live(p, b) :: Live(r, b) && r.order[b] == p.order[b])
  }

  lemma BlockGrown(p: Pool, o: nat, r: Pool, x: int)
    requires BuddyRuns.Sound(p) && AllocPages(p, o) == Some((r, x))
    ensures Grown(p, r, o, x)
  {
    BuddyRuns.SoundShape(p);
    BuddyRuns.AllocConserves(p, o, r, x);
    BuddyRuns.NewBlock(p, o, r, x);
    hide AllocPages, BuddyRuns.FreeSet, Inv;
    BuddyRuns.InInterval(x, Pow2(o));
    forall b ensures (Live(r, b) <==> Live(p, b) || b == x) {
      BuddyRuns.LiveIsBusy(p, b);
      BuddyRuns.LiveIsBusy(r, b);
    }
  }

  lemma DrawTakes(h: Heap, i: nat)
    requires HeapInv(h) && i < |h.caches| && h.caches[i].size > 0 && h.caches[i].avail != []
    ensures var (g, a) := CacheAlloc(h, i); var c := h.caches[i];
      && |g.caches| == |h.caches| && g.pool == h.pool && SameSlabs(h, g, i)
      && a == c.avail[0] && g.caches[i].avail == c.avail[1..]
  {
    RefillInv(h, i);
    hide HeapInv;
  }

  lemma DrawGrows(h: Heap, i: nat)
    requires HeapInv(h) && i < |h.caches| && h.caches[i].size > 0 && h.caches[i].avail == [] && Refill(h, i).Some?
    ensures var (g, a) := CacheAlloc(h, i); var c := h.caches[i];
      && |g.caches| == |h.caches| && Grown(h.pool, g.pool, c.order, a / PAGE_SIZE) && a % PAGE_SIZE == 0
      && g.caches[i].slabs == c.slabs + [a / PAGE_SIZE] && g.caches[i].order == c.order
      && g.caches[i].size == c.size && InRow([a] + g.caches[i].avail, a, c.size, SlabBytes(c.order))
  {
    var c := h.caches[i];
    HeapSound(h);
    RefillInv(h, i);
    SizeFits(h, i);
    hide HeapInv, AllocPages, Grown;
    var (r, x) := AllocPages(h.pool, c.order).value;
    BlockGrown(h.pool, c.order, r, x);
    FirstOfSlab(c, x);
  }

  lemma FirstOfSlab(c: Cache, x: int)
    requires 0 < c.size <= SlabBytes(c.order)
    ensures var s := SlabObjects(c, x);
      s != [] && s[0] / PAGE_SIZE == x && s[0] % PAGE_SIZE == 0 && InRow(s, x * PAGE_SIZE, c.size, SlabBytes(c.order))
  {
    CountIs(x * PAGE_SIZE, c.size, SlabBytes(c.order));
    hide SlabBytes;
    PageStart(x);
  }

  lemma CountIs(start: int, size: nat, bytes: nat)
    requires size > 0
    ensures |Objects(start, size, start + bytes)| == bytes / size
    ensures InRow(Objects(start, size, start + bytes), start, size, bytes)
  {
    forall k | 0 <= k < |Objects(start, size, start + bytes)|
      ensures Objects(start, size, start + bytes)[k] == start + k * size
    {
      ObjectsAt(start, size, start + bytes, k);
    }
    ObjectsCount(start, size, start + bytes);
    hide Objects;
    var m := |Objects(start, size, start + bytes)|;
    assert (m + 1) * size == m * size + size;
    Quotient(bytes, size, m);
  }

  lemma PageStart(x: int)
    ensures x * PAGE_SIZE / PAGE_SIZE == x && x * PAGE_SIZE % PAGE_SIZE == 0
  {
  }

  lemma SizeFits(h: Heap, i: nat)
    requires HeapInv(h) && i < |h.caches| && h.caches[i].size > 0
    ensures h.caches[i].size <= SlabBytes(h.caches[i].order)
  {
    assert CacheInv(h.pool, h.caches[i]);
  }

  lemma DrawOwns(h: Heap, i: nat)
    requires HeapInv(h) && i < |h.caches| && h.caches[i].size > 0 && Refill(h, i).Some?
    ensures var (g, a) := CacheAlloc(h, i); 0 <= PageOf(a) < |h.owner| && g.owner == h.owner[PageOf(a) := i]
  {
    RefillInv(h, i);
    FirstFree(Refill(h, i).value, i);
    hide HeapInv, AllocPages;
  }

  // kmalloc draws from the class of the size, and does nothing for sizes without one.
  lemma MallocEffect(h: Heap, size: nat)
    requires HeapInv(h) && Booted(h) && size < WORD_RANGE
    ensures Run(h, [Malloc(size)]) == if 1 <= size <= 8192 then Run(h, [Draw((size - 1) / 32)]) else h
  {
    KmallocClass(size);
    RunOnce(h, Malloc(size));
    if 1 <= size <= 8192 { RunOnce(h, Draw((size - 1) / 32)); }
    hide HeapInv, Run, CacheAlloc;
  }

  // A cache created in an unused slot has one slab of the order for the size, whose objects
  // are all free; without an order or a block the heap stays as it is.
  lemma CreateEffect(h: Heap, i: nat, size: nat) returns (x: int)
    requires HeapInv(h) && i < |h.caches| && h.caches[i].size == 0 && Creatable(size) && Shape(h.pool)
    ensures var g := Run(h, [Create(i, size)]); var o := RightOrder(size);
      if size <= 13120 && exists y, k | o <= k <= 8 :: FreeHead(h.pool, y, k) then
        && HeapInv(g) && OthersKept(h, g, i) && g.owner == h.owner && o >= 0 && Grown(h.pool, g.pool, o, x)
        && size > 0 && g.caches[i].size == size && g.caches[i].order == o && g.caches[i].slabs == [x]
        && g.caches[i].live == {} && InRow(g.caches[i].avail, x * PAGE_SIZE, size, SlabBytes(o))
      else g == h
  {
    hide HeapInv, Run, Grown, RightOrder, AllocPages, FreeHead, Step, SlabBytes;
    RunOnce(h, Create(i, size));
    RightOrderLeast(size);
    HeapSound(h);
    HeapParts(h);
    CreateAllowed(h, i, size);
    x := 0;
    if size <= 13120 {
      AllocPagesFails(h.pool, RightOrder(size));
      if AllocPages(h.pool, RightOrder(size)).Some? {
        var r: Pool;
        r, x := AllocPages(h.pool, RightOrder(size)).value.0, AllocPages(h.pool, RightOrder(size)).value.1;
        BlockGrown(h.pool, RightOrder(size), r, x);
        CreatedCache(size, x);
      }
    }
  }

  lemma CreateAllowed(h: Heap, i: nat, size: nat)
    requires HeapInv(h) && i < |h.caches| && h.caches[i].size == 0 && Creatable(size)
    ensures Allowed(h, Create(i, size)) && Inv(h.pool, -1)
    ensures Step(h, Create(i, size)) ==
      if RightOrder(size) == -1 then h
      else match AllocPages(h.pool, RightOrder(size))
        case None => h
        case Some((r, x)) => h.(pool := r, caches := h.caches[i := FreshCache(size, RightOrder(size), x)])
  {
    RightOrderLeast(size);
    HeapParts(h);
    hide HeapInv, AllocPages, RightOrder;
  }

  lemma CreatedCache(size: nat, x: int)
    requires size <= 13120 && Creatable(size)
    ensures RightOrder(size) >= 0
    ensures var o := RightOrder(size); var c := FreshCache(size, o, x);
      && size > 0 && c.size == size && c.order == o && c.slabs == [x] && c.live == {}
      && InRow(c.avail, x * PAGE_SIZE, size, SlabBytes(o))
  {
    RightOrderLeast(size);
    var o := RightOrder(size);
    hide RightOrder, Objects;
    CountIs(x * PAGE_SIZE, size, SlabBytes(o));
  }

  // A cache destroyed leaves its slot empty and exactly the pages of its slabs free.
  lemma DestroyEffect(h: Heap, i: nat)
    requires HeapInv(h) && i < |h.caches| && h.caches[i].size > 0
    ensures var g := Run(h, [Destroy(i)]); var c := h.caches[i];
      && HeapInv(g) && OthersKept(h, g, i) && g.owner == h.owner && Shape(h.pool) && Shape(g.pool)
      && g.caches[i].size == 0 && g.caches[i].slabs == [] && g.caches[i].avail == [] && g.caches[i].live == {}
      && (forall p :: p in BuddyRuns.FreeSet(g.pool) <==>
            p in BuddyRuns.FreeSet(h.pool) || exists s | s in c.slabs :: s <= p < s + Pow2(c.order))
      && (forall b | Live(h.pool, b) && b !in c.slabs :: Live(g.pool, b) && g.pool.order[b] == h.pool.order[b])
  {
    hide HeapInv, Run, BuddyRuns.Sound, PageBusy, Step, BuddyRuns.FreeSet;
    RunOnce(h, Destroy(i));
    HeapSound(h);
    BuddyRuns.SoundShape(h.pool);
    var g := DestroyIs(h, i);
    SlabOrders(h, i);
    forall p ensures p in BuddyRuns.FreeSet(g.pool) <==>
      p in BuddyRuns.FreeSet(h.pool) || exists s | s in h.caches[i].slabs :: s <= p < s + Pow2(h.caches[i].order) {
      FreeAfter(h, g, i, p);
    }
  }

  lemma DestroyIs(h: Heap, i: nat) returns (g: Heap)
    requires HeapInv(h) && i < |h.caches| && h.caches[i].size > 0
    ensures Allowed(h, Destroy(i)) && g == Step(h, Destroy(i))
    ensures g == h.(pool := g.pool, caches := h.caches[i := NO_CACHE])
    ensures Shape(h.pool) && Shape(g.pool) && |g.pool.order| == |h.pool.order|
    ensures forall b | Live(h.pool, b) && b !in h.caches[i].slabs ::
      Live(g.pool, b) && g.pool.order[b] == h.pool.order[b]
    ensures forall p | 0 <= p < |h.pool.order| ::
      PageBusy(g.pool, p) <==>
        PageBusy(h.pool, p) && forall s :: s in h.caches[i].slabs ==> !(s <= p < s + Pow2(h.pool.order[s]))
  {
    SlabsBusy(h, i);
    HeapSound(h);
    FreeSlabsExact(h.pool, h.caches[i].slabs);
    g := DestroyCache(h, i);
    BuddyRuns.SoundShape(h.pool);
    BuddyRuns.SoundShape(g.pool);
    hide HeapInv, FreeSlabs, BuddyRuns.Sound, PageBusy;
  }

  lemma FreeAfter(h: Heap, g: Heap, i: nat, p: int)
    requires i < |h.caches| && Shape(h.pool) && Shape(g.pool) && |g.pool.order| == |h.pool.order|
    requires forall s | s in h.caches[i].slabs ::
      0 <= s < |h.pool.order| && h.pool.order[s] == h.caches[i].order && s + Pow2(h.caches[i].order) <= |h.pool.order|
    requires 0 <= p < |h.pool.order| ==>
      (PageBusy(g.pool, p) <==>
        PageBusy(h.pool, p) && forall s :: s in h.caches[i].slabs ==> !(s <= p < s + Pow2(h.pool.order[s])))
    ensures p in BuddyRuns.FreeSet(g.pool) <==>
      p in BuddyRuns.FreeSet(h.pool) || exists s | s in h.caches[i].slabs :: s <= p < s + Pow2(h.caches[i].order)
  {
    hide PageBusy, Pow2;
  }

  lemma SlabOrders(h: Heap, i: nat)
    requires HeapInv(h) && i < |h.caches| && h.caches[i].size > 0
    ensures Shape(h.pool)
    ensures forall s | s in h.caches[i].slabs ::
      0 <= s < |h.pool.order| && h.pool.order[s] == h.caches[i].order
      && s + Pow2(h.caches[i].order) <= |h.pool.order|
  {
    assert CacheInv(h.pool, h.caches[i]);
    forall s | s in h.caches[i].slabs ensures s + Pow2(h.pool.order[s]) <= |h.pool.order| {
      assert Live(h.pool, s) && BlockAt(h.pool.order, s);
    }
  }

  // Pages taken and given back by others: as on the pool, with all caches as they are. The
  // slabs of caches cannot be given back that way.
  lemma TakeEffect(h: Heap, o: nat)
    requires HeapInv(h)
    ensures BuddyRuns.Sound(h.pool)
    ensures Run(h, [Take(o)]) == h.(pool := BuddyRuns.Run(h.pool, [BuddyRuns.Alloc(o)]))
  {
    hide HeapInv, Run, BuddyRuns.Run, AllocPages, BuddyRuns.Sound, Inv;
    HeapSound(h);
    RunOnce(h, Take(o));
    BuddyRuns.SoundShape(h.pool);
    BuddyRuns.RunOnce(h.pool, BuddyRuns.Alloc(o));
  }

  lemma GiveEffect(h: Heap, b: int)
    requires HeapInv(h)
    ensures BuddyRuns.Sound(h.pool)
    ensures Run(h, [Give(b)]) == if IsSlab(h, b) then h else h.(pool := BuddyRuns.Run(h.pool, [BuddyRuns.Free(b)]))
  {
    hide HeapInv, Run, BuddyRuns.Run, FreePages, BuddyRuns.Sound, Inv, IsSlab;
    HeapSound(h);
    RunOnce(h, Give(b));
    BuddyRuns.SoundShape(h.pool);
    BuddyRuns.RunOnce(h.pool, BuddyRuns.Free(b));
  }
}
