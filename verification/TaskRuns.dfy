// Where kmalloc can be made to put a task: at any page of any large free block, so also at
// an odd one, from which current_task_info does not lead back to the task.
module TaskRuns {
  import opened Common
  import opened Powers
  import opened BuddySpec
  import opened BuddyTheorems
  import BuddyRuns
  import BuddyBuild
  import opened SlabSpec
  import opened SlabSteps
  import opened KmallocRuns
  import opened BootRoom
  import opened TaskMemory

  const TASK_CLASS: nat := 255

  // ---------- operations of the pool as operations of the heap ----------

  function Mallocs(m: nat): seq<Op> {
    seq(m, _ => Malloc(TASK_SIZE))
  }

  function Takes(m: nat): seq<Op> {
    seq(m, _ => Take(0))
  }

  function Gives(x: int, len: nat): seq<Op> {
    seq(len, i requires i >= 0 => Give(x + i))
  }

  lemma {:induction false} RunConcat(h: Heap, a: seq<Op>, b: seq<Op>)
    requires HeapInv(h)
    ensures HeapInv(Run(h, a)) && Run(h, a + b) == Run(Run(h, a), b)
    decreases |a|
  {
    RunInv(h, a);
    hide HeapInv, Step, Allowed;
    if a == [] {
      assert a + b == b;
    } else {
      assert (a + b)[1..] == a[1..] + b && (a + b)[0] == a[0];
      if Allowed(h, a[0]) {
        StepInv(h, a[0]);
        RunConcat(Step(h, a[0]), a[1..], b);
      } else {
        RunConcat(h, a[1..], b);
      }
    }
  }

  lemma {:induction false} RunTakes(h: Heap, m: nat)
    requires HeapInv(h)
    ensures BuddyRuns.Sound(h.pool) && HeapInv(Run(h, Takes(m)))
    ensures Run(h, Takes(m)) == h.(pool := BuddyRuns.Run(h.pool, BuddyBuild.Takes(m)))
    decreases m
  {
    RunInv(h, Takes(m));
    HeapSound(h);
    hide HeapInv, BuddyRuns.Sound, AllocPages;
    if m > 0 {
      assert Takes(m)[1..] == Takes(m - 1) && BuddyBuild.Takes(m)[1..] == BuddyBuild.Takes(m - 1);
      StepInv(h, Take(0));
      BuddyRuns.StepSound(h.pool, BuddyRuns.Alloc(0));
      BuddyRuns.SoundShape(h.pool);
      RunTakes(Step(h, Take(0)), m - 1);
    }
  }

  lemma {:induction false} RunGives(h: Heap, x: int, len: nat)
    requires HeapInv(h) && forall i | x <= i < x + len :: !IsSlab(h, i)
    ensures BuddyRuns.Sound(h.pool) && HeapInv(Run(h, Gives(x, len)))
    ensures Run(h, Gives(x, len)) == h.(pool := BuddyRuns.Run(h.pool, BuddyBuild.Gives(x, len)))
    decreases len
  {
    RunInv(h, Gives(x, len));
    HeapSound(h);
    hide HeapInv, BuddyRuns.Sound, FreePages;
    if len > 0 {
      assert Gives(x, len)[1..] == Gives(x + 1, len - 1);
      assert BuddyBuild.Gives(x, len)[1..] == BuddyBuild.Gives(x + 1, len - 1);
      BuddyRuns.SoundShape(h.pool);
      BuddyRuns.StepSound(h.pool, BuddyRuns.Free(x));
      GiveStep(h, x);
      hide IsSlab;
      var r := BuddyRuns.Step(h.pool, BuddyRuns.Free(x));
      SameSlabs(h, r);
      RunGives(h.(pool := r), x + 1, len - 1);
    }
  }

  lemma GiveStep(h: Heap, x: int)
    requires HeapInv(h) && !IsSlab(h, x) && Shape(h.pool)
    ensures Inv(h.pool, -1)
    ensures var r := BuddyRuns.Step(h.pool, BuddyRuns.Free(x));
      && HeapInv(h.(pool := r)) && (Allowed(h, Give(x)) ==> Step(h, Give(x)) == h.(pool := r))
      && (!Allowed(h, Give(x)) ==> h == h.(pool := r))
  {
    HeapParts(h);
    if Allowed(h, Give(x)) { StepInv(h, Give(x)); }
    hide HeapInv, Inv, FreePages;
  }

  lemma SameSlabs(h: Heap, r: Pool)
    ensures forall i :: IsSlab(h.(pool := r), i) <==> IsSlab(h, i)
  {
  }

  // ---------- using up the class of tasks ----------

  // The same caches, but for which objects are handed out.
  ghost predicate SameCaches(h: Heap, g: Heap) {
    |g.caches| == |h.caches| && forall j | 0 <= j < |h.caches| ::
      g.caches[j].size == h.caches[j].size && g.caches[j].order == h.caches[j].order
      && g.caches[j].slabs == h.caches[j].slabs
  }

  lemma {:induction false} Drain(h: Heap, m: nat)
    requires HeapInv(h) && Booted(h) && m == |h.caches[TASK_CLASS].avail|
    ensures var g := Run(h, Mallocs(m));
      && HeapInv(g) && g.pool == h.pool && SameCaches(h, g) && g.caches[TASK_CLASS].avail == []
    decreases m
  {
    hide HeapInv;
    if m > 0 {
      assert Mallocs(m)[1..] == Mallocs(m - 1) && Mallocs(m)[0] == Malloc(TASK_SIZE);
      OneMalloc(h);
      Drain(Step(h, Malloc(TASK_SIZE)), m - 1);
    }
  }

  lemma OneMalloc(h: Heap)
    requires HeapInv(h) && Booted(h) && h.caches[TASK_CLASS].avail != []
    ensures Allowed(h, Malloc(TASK_SIZE))
    ensures var g := Step(h, Malloc(TASK_SIZE));
      && HeapInv(g) && Booted(g) && g.pool == h.pool && SameCaches(h, g)
      && g.caches[TASK_CLASS].avail == h.caches[TASK_CLASS].avail[1..]
  {
    TaskClass();
    StepInv(h, Malloc(TASK_SIZE));
    hide HeapInv;
  }

  // With none free and one block of the order of the slabs left, that block is the next
  // slab, and the task is at its start.
  lemma NextTask(h: Heap, x: int)
    requires HeapInv(h) && Booted(h) && h.caches[TASK_CLASS].avail == [] && Shape(h.pool)
    requires FreeHead(h.pool, x, h.caches[TASK_CLASS].order) && h.caches[TASK_CLASS].order <= MAX_ORDER
    requires forall g, j | 0 <= j < ORDER_NUM && FreeHead(h.pool, g, j) :: g == x
    ensures Allowed(h, Malloc(TASK_SIZE)) && Kmalloc(h, TASK_SIZE).1 == x * PAGE_SIZE
  {
    TaskClass();
    var c := h.caches[TASK_CLASS];
    OnlyBlock(h, x, c.order);
    var (r, y) := AllocPages(h.pool, c.order).value;
    FirstObject(h, x);
  }

  lemma FirstObject(h: Heap, x: int)
    requires HeapInv(h) && Booted(h) && 0 <= x
    ensures var c := h.caches[TASK_CLASS]; SlabObjects(c, x) != [] && SlabObjects(c, x)[0] == x * PAGE_SIZE
  {
    assert CacheInv(h.pool, h.caches[TASK_CLASS]);
  }

  lemma OnlyBlock(h: Heap, x: int, o: nat)
    requires HeapInv(h) && Shape(h.pool) && FreeHead(h.pool, x, o) && o <= MAX_ORDER
    requires forall g, j | 0 <= j < ORDER_NUM && FreeHead(h.pool, g, j) :: g == x
    ensures Inv(h.pool, -1) && AllocPages(h.pool, o).Some? && AllocPages(h.pool, o).value.1 == x
  {
    HeapParts(h);
    AllocPagesFails(h.pool, o);
    var (r, y) := Get(h.pool, o).value;
    var (g, q) := Source(h.pool, o);
    hide HeapInv, Inv, Get, AllocPages;
    AllocSmallestFit(h.pool, o, r, y, g, q);
  }

  // ---------- the run ----------

  // Pages of a free block are free, and no slab starts there.
  lemma BlockPages(h: Heap, b: int, k: nat, x: int, len: nat)
    requires HeapInv(h) && Shape(h.pool) && FreeHead(h.pool, b, k) && b <= x && x + len <= b + Pow2(k)
    ensures forall i | x <= i < x + len :: i in BuddyRuns.FreeSet(h.pool) && !IsSlab(h, i)
  {
    HeapParts(h);
    FreeApartFromBusy(h.pool, b);
    assert BlockAt(h.pool.order, b);
    forall i | x <= i < x + len ensures i in BuddyRuns.FreeSet(h.pool) && !IsSlab(h, i) {
      NotSlab(h, i);
    }
  }

  lemma NotSlab(h: Heap, i: int)
    requires HeapInv(h) && Shape(h.pool) && !Live(h.pool, i)
    ensures !IsSlab(h, i)
  {
    forall j | 0 <= j < |h.caches| ensures i !in h.caches[j].slabs {
      assert CacheInv(h.pool, h.caches[j]);
    }
  }

  lemma SameIsSlab(h: Heap, g: Heap, i: int)
    requires SameCaches(h, g)
    ensures IsSlab(g, i) <==> IsSlab(h, i)
  {
    if IsSlab(h, i) {
      var j :| 0 <= j < |h.caches| && i in h.caches[j].slabs;
      assert i in g.caches[j].slabs;
    }
  }

  // From any heap in which the classes stand, 2^o pages inside a larger free block, where
  // o is the order of the slabs for tasks, can be made the next of these slabs.
  lemma TaskAnywhere(h: Heap, b: int, k: nat, x: int) returns (ops: seq<Op>)
    requires HeapInv(h) && Booted(h) && Shape(h.pool) && FreeHead(h.pool, b, k)
    requires h.caches[TASK_CLASS].order <= MAX_ORDER
    requires b <= x && x + Pow2(h.caches[TASK_CLASS].order) <= b + Pow2(k)
    ensures var g := Run(h, ops);
      && HeapInv(g) && Booted(g) && Allowed(g, Malloc(TASK_SIZE))
      && Kmalloc(g, TASK_SIZE).1 == x * PAGE_SIZE
    ensures ClassesSpared(ops)
  {
    hide HeapInv, Run, IsSlab, FreeHead, Shape, BuddyRuns.Sound, BuddyRuns.FreeSet;
    var o := h.caches[TASK_CLASS].order;
    var m, f := |h.caches[TASK_CLASS].avail|, |BuddyRuns.FreeSet(h.pool)|;
    BlockPages(h, b, k, x, Pow2(o));
    Drain(h, m);
    var h1 := Run(h, Mallocs(m));
    var h2 := AllTaken(h1, x, o);
    forall i | x <= i < x + Pow2(o) ensures !IsSlab(h2, i) {
      SameIsSlab(h, h2, i);
    }
    var h3 := GivenBack(h2, x, o);
    NextTask(h3, x);
    RunConcat(h, Mallocs(m), Takes(f));
    RunConcat(h, Mallocs(m) + Takes(f), Gives(x, Pow2(o)));
    ops := Mallocs(m) + Takes(f) + Gives(x, Pow2(o));
  }

  lemma AllTaken(h: Heap, x: int, o: nat) returns (g: Heap)
    requires HeapInv(h) && Shape(h.pool) && forall i | x <= i < x + Pow2(o) :: i in BuddyRuns.FreeSet(h.pool)
    ensures g == Run(h, Takes(|BuddyRuns.FreeSet(h.pool)|)) && HeapInv(g) && g == h.(pool := g.pool)
    ensures Shape(g.pool) && BuddyBuild.Full(g.pool) && BuddyBuild.Singles(g.pool, x, Pow2(o))
  {
    HeapSound(h);
    var m := |BuddyRuns.FreeSet(h.pool)|;
    g := Run(h, Takes(m));
    RunTakes(h, m);
    BuddyBuild.TakeAll(h.pool, m);
    hide HeapInv, BuddyRuns.Sound, BuddyBuild.Full, Run;
    assert x in BuddyRuns.FreeSet(h.pool) && x + Pow2(o) - 1 in BuddyRuns.FreeSet(h.pool);
    forall i | x <= i < x + Pow2(o) ensures g.pool.busy[i] && g.pool.order[i] == 0 {
      assert i in BuddyRuns.FreeSet(h.pool);
    }
  }

  lemma GivenBack(h: Heap, x: int, o: nat) returns (g: Heap)
    requires HeapInv(h) && Shape(h.pool) && BuddyBuild.Full(h.pool) && BuddyBuild.Singles(h.pool, x, Pow2(o))
    requires o <= MAX_ORDER && forall i | x <= i < x + Pow2(o) :: !IsSlab(h, i)
    ensures g == Run(h, Gives(x, Pow2(o))) && HeapInv(g) && g == h.(pool := g.pool)
    ensures Shape(g.pool) && FreeHead(g.pool, x, o)
    ensures forall y, j | 0 <= j < ORDER_NUM && FreeHead(g.pool, y, j) :: y == x
  {
    hide HeapInv, BuddyRuns.Sound, BuddyBuild.Full, BuddyBuild.Singles, Run, BuddyRuns.Run, FreeHead, IsSlab;
    g := Run(h, Gives(x, Pow2(o)));
    RunGives(h, x, Pow2(o));
    BuddyBuild.BlockAnywhere(h.pool, x, o);
  }

  // The task is at an odd page, and some stack pointer into it does not lead back to it.
  ghost predicate Lost(h: Heap, base: nat)
    requires HeapInv(h) && Booted(h) && Allowed(h, Malloc(TASK_SIZE))
  {
    var a := Kmalloc(h, TASK_SIZE).1;
    && a >= 0 && (base + a) % TASK_SIZE != 0
    && exists sp | base + a < sp <= base + a + TASK_SIZE :: CurrentTask(sp) != base + a
  }

  lemma OddIsLost(h: Heap, base: nat, x: nat)
    requires HeapInv(h) && Booted(h) && Allowed(h, Malloc(TASK_SIZE)) && Kmalloc(h, TASK_SIZE).1 == x * PAGE_SIZE
    requires x % 2 == 1 && base % TASK_SIZE == 0
    ensures Lost(h, base)
  {
    hide HeapInv, Allowed, Kmalloc;
    EvenPage(base, x, 0);
    CurrentTaskExactly(base + x * PAGE_SIZE);
  }

  // After kmalloc_init on a machine with 8702 pages or more there is a run that destroys
  // no class and after which kmalloc puts a task where it is lost.
  lemma TaskLost(n: nat, base: nat) returns (ops: seq<Op>)
    requires n >= 8702 && base % TASK_SIZE == 0
    ensures Unbuilt(Boot(n, KMALLOC_CACHES), 0)
    ensures var (h, ok) := BootClasses(Boot(n, KMALLOC_CACHES), 0);
      && ok && HeapInv(h) && Booted(h) && ClassesSpared(ops)
      && var g := Run(h, ops);
      && HeapInv(g) && Booted(g) && Allowed(g, Malloc(TASK_SIZE)) && Lost(g, base)
  {
    hide HeapInv, BootClasses, Run, Boot, FreeHead, Allowed, ClassesSpared, Lost;
    BootRoomLeft(n);
    var h := BootClasses(Boot(n, KMALLOC_CACHES), 0).0;
    TaskOrder();
    ops := LoseTask(h, base);
  }

  lemma LoseTask(h: Heap, base: nat) returns (ops: seq<Op>)
    requires HeapInv(h) && Booted(h) && Shape(h.pool) && base % TASK_SIZE == 0
    requires h.caches[TASK_CLASS].order == 5 && exists b :: FreeHead(h.pool, b, MAX_ORDER)
    ensures var g := Run(h, ops);
      HeapInv(g) && Booted(g) && Allowed(g, Malloc(TASK_SIZE)) && Lost(g, base)
    ensures ClassesSpared(ops)
  {
    hide HeapInv, Run, FreeHead, Allowed, ClassesSpared, Lost, Pow2, Kmalloc;
    var b :| FreeHead(h.pool, b, MAX_ORDER);
    HeadAt(h, b);
    var x := OddPage(b);
    ops := TaskAnywhere(h, b, MAX_ORDER, x);
    OddIsLost(Run(h, ops), base, x);
  }

  lemma OddPage(b: nat) returns (x: nat)
    ensures x % 2 == 1 && b <= x && x + Pow2(5) <= b + Pow2(MAX_ORDER)
  {
    Pow2Small();
    x := if b % 2 == 1 then b else b + 1;
  }

  lemma TaskOrder()
    ensures ClassOrder(TASK_CLASS) == 5 && Pow2(5) == 32 && Pow2(MAX_ORDER) == 256
  {
    TaskClass();
    Pow2Small();
  }

  lemma HeadAt(h: Heap, b: int)
    requires Shape(h.pool) && FreeHead(h.pool, b, MAX_ORDER)
    ensures b >= 0
  {
  }
}
