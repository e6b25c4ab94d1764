// What kmalloc_init leaves: while blocks are only taken, no list but the longest order's
// grows, so the pool of a machine with enough pages still has blocks of the largest order.
module BootRoom {
  import opened Common
  import opened Powers
  import opened BuddySpec
  import opened BuddyTheorems
  import opened BuddyRuns
  import opened BuddyUnaligned
  import opened SlabSpec
  import opened SlabSteps
  import opened KmallocRuns

  // ---------- short lists ----------

  // The pages left over at boot on list 0, and at most one block on each list between the
  // first and the last.
  predicate ShortLists(p: Pool) {
    |p.free| == ORDER_NUM && |p.free[0]| < 256 && forall j | 1 <= j < MAX_ORDER :: |p.free[j]| <= 1
  }

  lemma InitShort(n: nat)
    ensures ShortLists(Init(n))
  {
  }

  // A block is split only when the lists its halves go to are empty.
  lemma AllocShort(p: Pool, o: nat, r: Pool, x: int)
    requires Inv(p, -1) && AllocPages(p, o) == Some((r, x)) && ShortLists(p)
    ensures ShortLists(r)
  {
    hide Inv, Get, Split;
    var g := Get(p, o).value.0;
    assert Get(p, o).Some? && r.free == g.free;
    var q, h := GetUnfold(p, o);
    forall j | 0 <= j < ORDER_NUM
      ensures |r.free| == ORDER_NUM
      ensures |r.free[j]| <= |p.free[j]| || (j < q && |r.free[j]| == 1)
    {
      SplitHalves(PopFront(p, q), h, q, o, j);
    }
  }

  // ---------- how many pages short lists can hold ----------

  ghost function PagesOf(list: seq<int>, len: nat): set<int> {
    if list == [] then {} else Interval(list[0], len) + PagesOf(list[1..], len)
  }

  lemma {:induction false} PagesAtMost(list: seq<int>, len: nat)
    ensures |PagesOf(list, len)| <= |list| * len
  {
    if list != [] {
      hide Interval;
      IntervalSize(list[0], len);
      PagesAtMost(list[1..], len);
      UnionAtMost(Interval(list[0], len), PagesOf(list[1..], len));
      OneMore(|list[1..]|, len);
    }
  }

  lemma OneMore(n: nat, len: nat)
    ensures (n + 1) * len == n * len + len
  {
  }

  lemma UnionAtMost(a: set<int>, b: set<int>)
    ensures |a + b| <= |a| + |b|
  {
    assert a + b == a + (b - a);
    Fewer(b - a, b);
  }

  lemma {:induction false} PagesHold(list: seq<int>, len: nat, h: int, i: int)
    requires h in list && h <= i < h + len
    ensures i in PagesOf(list, len)
  {
    if list[0] == h {
      assert InRange(h, i, len);
    } else {
      PagesHold(list[1..], len, h, i);
    }
  }

  // The pages of the blocks on the first k lists.
  ghost function PagesBelow(free: seq<seq<int>>, k: nat): set<int>
    requires k <= |free|
  {
    if k == 0 then {} else PagesBelow(free, k - 1) + PagesOf(free[k - 1], Pow2(k - 1))
  }

  lemma {:induction false} PagesBelowHold(free: seq<seq<int>>, k: nat, j: nat, i: int)
    requires j < k <= |free| && i in PagesOf(free[j], Pow2(j))
    ensures i in PagesBelow(free, k)
    decreases k
  {
    if j < k - 1 { PagesBelowHold(free, k - 1, j, i); }
  }

  lemma {:induction false} ShortPages(p: Pool, k: nat)
    requires ShortLists(p) && 1 <= k <= MAX_ORDER
    ensures |PagesBelow(p.free, k)| <= 253 + Pow2(k)
    decreases k
  {
    hide PagesOf, ShortLists;
    ListSizes(p);
    PagesAtMost(p.free[k - 1], Pow2(k - 1));
    UnionAtMost(PagesBelow(p.free, k - 1), PagesOf(p.free[k - 1], Pow2(k - 1)));
    if k == 1 {
      assert PagesBelow(p.free, 0) == {};
      assert Pow2(0) == 1 && |p.free[0]| * 1 == |p.free[0]|;
    } else {
      ShortPages(p, k - 1);
      AtMostOnce(|p.free[k - 1]|, Pow2(k - 1));
    }
  }

  lemma ListSizes(p: Pool)
    requires ShortLists(p)
    ensures |p.free| == ORDER_NUM && |p.free[0]| < 256 && forall j | 1 <= j < MAX_ORDER :: |p.free[j]| <= 1
  {
  }

  lemma AtMostOnce(a: nat, b: nat)
    requires a <= 1
    ensures a * b <= b
  {
  }

  // A pool with short lists and more than 509 free pages has a block of the largest order.
  lemma LargestLeft(p: Pool)
    requires Inv(p, -1) && Shape(p) && ShortLists(p) && |FreeSet(p)| >= 510
    ensures p.free[MAX_ORDER] != []
  {
    if p.free[MAX_ORDER] == [] {
      forall i | i in FreeSet(p)
        ensures i in PagesBelow(p.free, MAX_ORDER)
      {
        OnSomeList(p, i);
      }
      Pow2Small();
      ShortPages(p, MAX_ORDER);
      hide Inv, ShortLists, FreeSet, PagesBelow;
      Fewer(FreeSet(p), PagesBelow(p.free, MAX_ORDER));
      assert false;
    }
  }

  lemma Fewer(a: set<int>, b: set<int>)
    requires a <= b
    ensures |a| <= |b|
  {
    assert b == a + (b - a);
  }

  lemma OnSomeList(p: Pool, i: int)
    requires Inv(p, -1) && Shape(p) && i in FreeSet(p) && p.free[MAX_ORDER] == []
    ensures i in PagesBelow(p.free, MAX_ORDER)
  {
    var b := CoverFrom(p.order, 0, i);
    assert BlockAt(p.order, b);
    var j := p.order[b];
    assert !p.busy[b];
    assert FreeHead(p, b, j) && b in p.free[j];
    hide Inv;
    PagesHold(p.free[j], Pow2(j), b, i);
    PagesBelowHold(p.free, MAX_ORDER, j, i);
  }

  // ---------- kmalloc_init ----------

  // What one class takes, with no list growing.
  lemma {:induction false} BootLeaves(h: Heap, i: nat)
    requires Unbuilt(h, i) && ShortLists(h.pool) && Shape(h.pool)
    requires |FreeSet(h.pool)| >= 510 + 32 * (KMALLOC_CACHES - i)
    requires forall j | 0 <= j < i :: h.caches[j].order == ClassOrder(j)
    ensures var (g, ok) := BootClasses(h, i);
      && ok && HeapInv(g) && Booted(g) && Shape(g.pool) && g.pool.free[MAX_ORDER] != []
      && forall j | 0 <= j < KMALLOC_CACHES :: g.caches[j].order == ClassOrder(j)
    decreases KMALLOC_CACHES - i
  {
    hide HeapInv, CreateCache, BootClasses, FreeSet, ShortLists, AllocPages, ClassOrder;
    BootClassesStep(h, i);
    BootClassesResult(h, i);
    HeapParts(h);
    LargestLeft(h.pool);
    if i < KMALLOC_CACHES {
      ClassBuilt(h, i);
      ClassTakes(h, i);
      CreateElsewhere(h, i, (i + 1) * KMALLOC_MIN);
      BootLeaves(CreateCache(h, i, (i + 1) * KMALLOC_MIN), i + 1);
    }
  }

  lemma ClassTakes(h: Heap, i: nat)
    requires Unbuilt(h, i) && i < KMALLOC_CACHES && ShortLists(h.pool) && Shape(h.pool)
    requires |FreeSet(h.pool)| >= 510
    ensures HeapInv(h) && Creatable((i + 1) * KMALLOC_MIN)
    ensures var g := CreateCache(h, i, (i + 1) * KMALLOC_MIN);
      && g.caches[i].size != 0 && Shape(g.pool) && ShortLists(g.pool) && |FreeSet(g.pool)| >= |FreeSet(h.pool)| - 32
      && g.caches[i].order == ClassOrder(i)
  {
    hide HeapInv, FreeSet, ShortLists, AllocPages, RightOrder;
    ClassCreatable(i);
    HeapParts(h);
    HeapSound(h);
    LargestLeft(h.pool);
    var o := ClassOrder(i);
    SmallOrder(i);
    SomeBlock(h.pool, o);
    var (r, x) := AllocPages(h.pool, o).value;
    AllocShort(h.pool, o, r, x);
    AllocConserves(h.pool, o, r, x);
  }

  lemma SmallOrder(i: nat)
    requires i < KMALLOC_CACHES
    ensures ClassOrder(i) == RightOrder((i + 1) * KMALLOC_MIN) <= 5 && Pow2(ClassOrder(i)) <= 32
  {
    RightOrderLeast((i + 1) * KMALLOC_MIN);
    Pow2Small();
    Pow2Monotone(ClassOrder(i), 5);
  }

  lemma SomeBlock(p: Pool, o: nat)
    requires Inv(p, -1) && Shape(p) && p.free[MAX_ORDER] != [] && o <= MAX_ORDER
    ensures AllocPages(p, o).Some?
  {
    var h := p.free[MAX_ORDER][0];
    assert FreeHead(p, h, MAX_ORDER);
    hide Inv;
    AllocPagesFails(p, o);
  }

  lemma AllFree(n: nat)
    ensures Shape(Init(n)) && |FreeSet(Init(n))| == n
  {
    forall i | 0 <= i < n ensures !PageBusy(Init(n), i) {
    }
    assert FreeSet(Init(n)) == Interval(0, n) by {
      forall i ensures i in FreeSet(Init(n)) <==> i in Interval(0, n) {
        assert InRange(0, i, n) <==> 0 <= i < n;
      }
    }
    IntervalSize(0, n);
  }

  // On a machine with 8702 pages or more kmalloc_init sets up all its classes and leaves a
  // block of the largest order.
  lemma BootRoomLeft(n: nat)
    requires n >= 8702
    ensures Unbuilt(Boot(n, KMALLOC_CACHES), 0)
    ensures var (g, ok) := BootClasses(Boot(n, KMALLOC_CACHES), 0);
      && ok && HeapInv(g) && Booted(g) && Shape(g.pool) && (exists b :: FreeHead(g.pool, b, MAX_ORDER))
      && forall j | 0 <= j < KMALLOC_CACHES :: g.caches[j].order == ClassOrder(j)
  {
    BootUnbuilt(n);
    InitShort(n);
    AllFree(n);
    var h := Boot(n, KMALLOC_CACHES);
    hide Init, HeapInv, BootClasses, FreeSet, ShortLists;
    BootLeaves(h, 0);
    FirstOnList(BootClasses(h, 0).0);
  }

  lemma FirstOnList(g: Heap)
    requires HeapInv(g) && Shape(g.pool) && g.pool.free[MAX_ORDER] != []
    ensures exists b :: FreeHead(g.pool, b, MAX_ORDER)
  {
    HeapParts(g);
    assert FreeHead(g.pool, g.pool.free[MAX_ORDER][0], MAX_ORDER);
  }
}
