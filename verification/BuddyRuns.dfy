// The page pool over every run of initialisation, allocation and freeing.
module BuddyRuns {
  import opened Common
  import opened Powers
  import opened BuddySpec
  import opened BuddyTheorems

  ghost predicate Sound(p: Pool) {
    Inv(p, -1) && DirtyExact(p)
  }

  lemma SoundShape(p: Pool)
    requires Sound(p)
    ensures Shape(p) && Inv(p, -1)
  {
  }

  // ---------- the start of every run ----------

  lemma MaxPagesFacts(n: nat)
    ensures MaxPages(n) % 256 == 0 && MaxPages(n) <= n < MaxPages(n) + 256
    ensures MaxPages(n) == n / 256 * 256 && n % 256 == n - MaxPages(n)
  {
  }

  lemma InitTiled(n: nat)
    ensures Tiled(InitOrder(n))
  {
    var order := InitOrder(n);
    MaxPagesFacts(n);
    Pow2Small();
    forall h | Head(order, h)
      ensures BlockAt(order, h)
    {
      if h < MaxPages(n) {
        assert h % 256 == 0 && h + 256 <= MaxPages(n);
        forall i | h < i < h + 256
          ensures order[i] == -1
        {
          assert i % 256 == i - h;
        }
        assert (h + 256) % 256 == 0;
      }
    }
  }

  lemma InitInv(n: nat)
    ensures Inv(Init(n), -1)
  {
    InitTiled(n);
    MaxPagesFacts(n);
    var p := Init(n);
    forall k: int, h: int | 0 <= k < ORDER_NUM
      ensures h in p.free[k] <==> FreeHead(p, h, k)
    {
      InitFreeExact(n, k, h);
    }
  }

  lemma InitFreeExact(n: nat, k: nat, h: int)
    requires k < ORDER_NUM
    ensures h in Init(n).free[k] <==> FreeHead(Init(n), h, k)
  {
    var p := Init(n);
    MaxPagesFacts(n);
    if k == 0 {
      if FreeHead(p, h, 0) { assert p.free[0][h - MaxPages(n)] == h; }
    } else if k == MAX_ORDER {
      if FreeHead(p, h, MAX_ORDER) { assert p.free[8][h / 256] == h; }
    } else {
      assert p.free[k] == [];
    }
  }

  lemma InitSound(n: nat)
    ensures Sound(Init(n)) && |Init(n).order| == n
  {
    InitInv(n);
  }

  // The initial pool has blocks that could be joined exactly when more than one page is
  // left over after cutting the array into blocks of the largest order.
  lemma InitCoalescedExactly(n: nat)
    ensures Coalesced(Init(n)) <==> n % 256 <= 1
    ensures forall x, j :: Splinter(Init(n), x, j) <==> j == 0 && MaxPages(n) <= x < n - 1
  {
    var p := Init(n);
    MaxPagesFacts(n);
    Pow2Small();
    if n % 256 > 1 {
      assert FreeHead(p, MaxPages(n), 0) && FreeHead(p, MaxPages(n) + 1, 0);
      assert Splinter(p, MaxPages(n), 0);
    }
  }

  // ---------- one step ----------

  datatype Op = Alloc(order: nat) | Free(page: int)

  // Callers free only blocks they hold; any other Free is not a step.
  function Step(p: Pool, op: Op): (r: Pool)
    requires Inv(p, -1)
  {
    match op
    case Alloc(o) =>
      (match AllocPages(p, o)
       case None => p
       case Some((r, x)) => r)
    case Free(h) =>
      if Head(p.order, h) && p.busy[h] then FreePages(p, h) else p
  }

  lemma BusyIgnoresDirty(p: Pool, d: seq<bool>, i: int)
    requires Shape(p) && |d| == |p.order|
    ensures PageBusy(p.(dirty := d), i) <==> PageBusy(p, i)
  {
    var r := p.(dirty := d);
    if PageBusy(p, i) {
      var b :| Head(p.order, b) && p.busy[b] && b <= i < b + Pow2(p.order[b]);
      assert Head(r.order, b) && r.busy[b];
    }
  }

  lemma AllocSound(p: Pool, o: nat, r: Pool, x: int)
    requires Sound(p) && AllocPages(p, o) == Some((r, x))
    ensures Sound(r) && |r.order| == |p.order|
    ensures Get(p, o).Some? && Get(p, o).value.1 == x && r == Get(p, o).value.0.(dirty := r.dirty)
    ensures 0 <= x && x + Pow2(o) <= |p.order|
    ensures forall i | 0 <= i < |p.order| :: PageBusy(r, i) <==> PageBusy(p, i) || x <= i < x + Pow2(o)
    ensures forall i | x <= i < x + Pow2(o) :: !PageBusy(p, i)
  {
    var g := Get(p, o).value.0;
    AllocTakesExactly(p, o, g, x);
    DirtyIrrelevant(g, r.dirty);
    assert g.dirty == p.dirty by { GetKeepsDirty(p, o, g, x); }
    assert Shape(p) && Shape(g) && Shape(r);
    assert r.dirty == Mark(p.dirty, x, Pow2(o), true);
    hide Inv, Get;
    forall i | 0 <= i < |p.order|
      ensures PageBusy(r, i) <==> PageBusy(p, i) || x <= i < x + Pow2(o)
    {
      BusyIgnoresDirty(g, r.dirty, i);
    }
  }

  lemma GetKeepsDirty(p: Pool, o: nat, r: Pool, x: int)
    requires Inv(p, -1) && Get(p, o) == Some((r, x))
    ensures r.dirty == p.dirty
  {
    var q, h := GetUnfold(p, o);
  }

  lemma FreeSound(p: Pool, h: int)
    requires Sound(p) && Head(p.order, h) && p.busy[h]
    ensures var r := FreePages(p, h);
      && Sound(r) && |r.order| == |p.order|
      && forall i | 0 <= i < |p.order| :: PageBusy(r, i) <==> PageBusy(p, i) && !InBlock(p.order, h, i)
  {
    assert h + Pow2(p.order[h]) <= |p.order| by { assert BlockAt(p.order, h); }
    var d := Mark(p.dirty, h, Pow2(p.order[h]), false);
    var u := p.(dirty := d);
    DirtyIrrelevant(p, d);
    FreeReleasesExactly(u, h);
    var r := Put(u, h);
    assert r.dirty == d by { UnbusyInv(u, h); }
    assert Shape(p) && Shape(u) && Shape(r) && Inv(r, -1);
    assert FreePages(p, h) == r;
    hide Inv, Put, FreePages;
    forall i | 0 <= i < |p.order|
      ensures PageBusy(r, i) <==> PageBusy(p, i) && !InBlock(p.order, h, i)
    {
      BusyIgnoresDirty(p, d, i);
    }
  }

  lemma StepSound(p: Pool, op: Op)
    requires Sound(p)
    ensures Sound(Step(p, op)) && |Step(p, op).order| == |p.order|
  {
    match op
    case Alloc(o) =>
      if AllocPages(p, o).Some? {
        AllocSound(p, o, AllocPages(p, o).value.0, AllocPages(p, o).value.1);
      }
    case Free(h) =>
      if Head(p.order, h) && p.busy[h] { FreeSound(p, h); }
  }

  lemma SplinterIgnoresDirty(p: Pool, d: seq<bool>, x: int, j: nat)
    requires Shape(p) && |d| == |p.order|
    ensures Splinter(p.(dirty := d), x, j) <==> Splinter(p, x, j)
  {
  }

  lemma StepKeepsCoalesced(p: Pool, op: Op, x: int, j: nat)
    requires Sound(p) && Shape(Step(p, op)) && Splinter(Step(p, op), x, j)
    ensures Splinter(p, x, j)
  {
    match op
    case Alloc(o) =>
      if AllocPages(p, o).Some? {
        var (r, y) := AllocPages(p, o).value;
        AllocSound(p, o, r, y);
        GetInv(p, o);
        hide Inv;
        SplinterIgnoresDirty(Get(p, o).value.0, r.dirty, x, j);
        AllocKeepsCoalesced(p, o, x, j);
      }
    case Free(h) =>
      if Head(p.order, h) && p.busy[h] {
        FreePagesKeepsCoalesced(p, h, x, j);
      }
  }

  lemma FreePagesKeepsCoalesced(p: Pool, h: int, x: int, j: nat)
    requires Inv(p, -1) && Head(p.order, h) && p.busy[h] && Splinter(FreePages(p, h), x, j)
    ensures Splinter(p, x, j)
  {
    assert h + Pow2(p.order[h]) <= |p.order| by { assert BlockAt(p.order, h); }
    var d := Mark(p.dirty, h, Pow2(p.order[h]), false);
    var u := p.(dirty := d);
    DirtyIrrelevant(p, d);
    assert FreePages(p, h) == Put(u, h);
    hide Put, FreePages;
    FreeKeepsCoalesced(u, h, x, j);
  }

  // Freeing pages just allocated from a pool without joinable pairs restores the pool,
  // DIRTY flags and list order included.
  lemma AllocFreePages(p: Pool, o: nat, r: Pool, x: int)
    requires Sound(p) && AllocPages(p, o) == Some((r, x)) && Shape(p) && Coalesced(p)
    ensures Inv(r, -1) && Head(r.order, x) && r.busy[x] && FreePages(r, x) == p
  {
    hide Inv, Get, AllocPages, FreePages, Put, DirtyExact, PageBusy, Splinter;
    AllocSound(p, o, r, x);
    var g := Get(p, o).value.0;
    CoalescedIdentity(p, o);
    GetInv(p, o);
    GetKeepsDirty(p, o, g, x);
    AllocMarks(p, o, r, x);
    CleanPages(p, x, Pow2(o));
    SoundShape(r);
    FreeUnmarks(r, x, o);
    assert Mark(Mark(p.dirty, x, Pow2(o), true), x, Pow2(o), false) == p.dirty;
    assert r.(dirty := p.dirty) == g;
  }

  lemma AllocMarks(p: Pool, o: nat, r: Pool, x: int)
    requires Inv(p, -1) && AllocPages(p, o) == Some((r, x)) && 0 <= x && x + Pow2(o) <= |p.dirty|
    ensures r.dirty == Mark(p.dirty, x, Pow2(o), true)
  {
    hide Inv, Get;
    GetKeepsDirty(p, o, Get(p, o).value.0, x);
  }

  lemma FreeUnmarks(r: Pool, x: int, o: nat)
    requires Inv(r, -1) && Head(r.order, x) && Shape(r) && r.busy[x] && r.order[x] == o && x + Pow2(o) <= |r.order|
    ensures var u := r.(dirty := Mark(r.dirty, x, Pow2(o), false)); Inv(u, -1) && FreePages(r, x) == Put(u, x)
  {
    DirtyIrrelevant(r, Mark(r.dirty, x, Pow2(o), false));
    hide Inv, Put;
  }

  // Pages in no busy block are not dirty.
  lemma CleanPages(p: Pool, x: int, len: nat)
    requires Sound(p) && 0 <= x && x + len <= |p.order| && Shape(p)
    requires forall i | x <= i < x + len :: !PageBusy(p, i)
    ensures forall i | x <= i < x + len :: !p.dirty[i]
  {
    hide Inv, PageBusy;
  }

  // ---------- every run ----------

  function Run(p: Pool, ops: seq<Op>): (r: Pool)
    requires Sound(p)
    decreases |ops|
  {
    if ops == [] then p
    else
      StepSound(p, ops[0]);
      Run(Step(p, ops[0]), ops[1..])
  }

  lemma {:induction false} RunSound(p: Pool, ops: seq<Op>)
    requires Sound(p)
    ensures Sound(Run(p, ops)) && |Run(p, ops).order| == |p.order|
    ensures forall x, j :: Splinter(Run(p, ops), x, j) ==> Splinter(p, x, j)
    decreases |ops|
  {
    if ops != [] {
      StepSound(p, ops[0]);
      forall x, j | Splinter(Step(p, ops[0]), x, j)
        ensures Splinter(p, x, j)
      {
        StepKeepsCoalesced(p, ops[0], x, j);
      }
      hide Sound, Splinter;
      RunSound(Step(p, ops[0]), ops[1..]);
    }
  }

  // In every state reached from boot the pool is sound and partitioned, and two free
  // blocks that could be joined exist only where the boot-time pool already had them:
  // in the tail of fewer than 256 pages. With at most one page in that tail the pool
  // is fully coalesced in every reachable state.
  lemma EveryRun(n: nat, ops: seq<Op>)
    ensures Sound(Init(n))
    ensures var p := Run(Init(n), ops);
      && Sound(p) && |p.order| == n
      && (forall x, j :: Splinter(p, x, j) ==> j == 0 && MaxPages(n) <= x < n - 1)
      && (n % 256 <= 1 ==> Coalesced(p))
  {
    InitSound(n);
    RunSound(Init(n), ops);
    InitCoalescedExactly(n);
  }

  // ---------- conservation ----------

  ghost function FreeSet(p: Pool): set<int>
    requires Shape(p)
  {
    set i | 0 <= i < |p.order| && !PageBusy(p, i)
  }

  predicate InRange(lo: int, i: int, len: nat) {
    lo <= i < lo + len
  }

  ghost function Interval(lo: int, len: nat): set<int> {
    set i | lo <= i < lo + len && InRange(lo, i, len)
  }

  lemma {:induction false} IntervalSize(lo: int, len: nat)
    ensures |Interval(lo, len)| == len
    decreases len
  {
    if len > 0 {
      IntervalSize(lo, len - 1);
      assert Interval(lo, len) == Interval(lo, len - 1) + {lo + len - 1};
    } else {
      assert Interval(lo, len) == {};
    }
  }

  // An allocation of order o takes exactly 2^o pages out of the free ones.
  lemma AllocConserves(p: Pool, o: nat, r: Pool, x: int)
    requires Sound(p) && AllocPages(p, o) == Some((r, x))
    ensures Shape(r) && FreeSet(r) == FreeSet(p) - Interval(x, Pow2(o))
    ensures Interval(x, Pow2(o)) <= FreeSet(p) && |FreeSet(r)| == |FreeSet(p)| - Pow2(o)
  {
    AllocSound(p, o, r, x);
    hide Sound, AllocPages, PageBusy, Shape;
    IntervalSize(x, Pow2(o));
    assert FreeSet(p) == FreeSet(r) + Interval(x, Pow2(o));
  }

  // Freeing a block of order o gives exactly its 2^o pages back.
  lemma FreeConserves(p: Pool, h: int)
    requires Sound(p) && Head(p.order, h) && p.busy[h]
    ensures FreeSet(FreePages(p, h)) == FreeSet(p) + Interval(h, Pow2(p.order[h]))
    ensures |FreeSet(FreePages(p, h))| == |FreeSet(p)| + Pow2(p.order[h])
  {
    FreeSound(p, h);
    var r := FreePages(p, h);
    var len := Pow2(p.order[h]);
    assert h + len <= |p.order| by { assert BlockAt(p.order, h); }
    forall i | h <= i < h + len
      ensures PageBusy(p, i)
    {
    }
    hide Sound, FreePages;
    IntervalSize(h, len);
    assert FreeSet(r) == FreeSet(p) + Interval(h, len);
    assert FreeSet(p) !! Interval(h, len);
  }

  // ---------- what each request does ----------

  lemma RunOnce(p: Pool, op: Op)
    requires Sound(p)
    ensures Inv(p, -1) && Sound(Step(p, op)) && Run(p, [op]) == Step(p, op)
  {
    StepSound(p, op);
    SoundShape(p);
    hide Sound, Step;
    assert [op][1..] == [];
  }

  lemma LiveIsBusy(p: Pool, b: int)
    requires Sound(p) && Shape(p)
    ensures Live(p, b) <==> 0 <= b < |p.order| && p.busy[b]
  {
    assert Inv(p, -1);
  }

  // A request for 2^o pages on a pool with a free block at least as large takes exactly
  // that many of the free pages, as one new busy block of order o; every other busy block
  // stays as it is. On any other pool it changes nothing.
  lemma AllocEffect(p: Pool, o: nat) returns (x: int)
    requires Sound(p) && Shape(p)
    ensures var r := Run(p, [Alloc(o)]);
      if exists h, k | o <= k <= 8 :: FreeHead(p, h, k) then
        && Sound(r) && Shape(r) && |r.order| == |p.order|
        && (forall i | x <= i < x + Pow2(o) :: i in FreeSet(p))
        && (forall i :: i in FreeSet(r) <==> i in FreeSet(p) && !(x <= i < x + Pow2(o)))
        && |FreeSet(r)| == |FreeSet(p)| - Pow2(o)
        && (forall b :: Live(r, b) <==> Live(p, b) || b == x) && Live(r, x) && r.order[x] == o && !Live(p, x)
        && (forall b | Live(p, b) :: r.order[b] == p.order[b])
      else r == p
  {
    RunOnce(p, Alloc(o));
    SoundShape(p);
    AllocFailsExactly(p, o);
    x := 0;
    if Get(p, o).Some? {
      var r := Step(p, Alloc(o));
      x := Get(p, o).value.1;
      assert AllocPages(p, o) == Some((r, x));
      hide Sound, Inv, Step, Run, AllocPages, Get, FreeSet;
      AllocConserves(p, o, r, x);
      InInterval(x, Pow2(o));
      NewBlock(p, o, r, x);
      forall b ensures Live(r, b) <==> Live(p, b) || b == x {
        LiveIsBusy(p, b);
        LiveIsBusy(r, b);
      }
      LiveIsBusy(p, x);
    }
  }

  lemma InInterval(x: int, len: nat)
    ensures forall i :: i in Interval(x, len) <==> x <= i < x + len
  {
    forall i ensures i in Interval(x, len) <==> x <= i < x + len {
      assert InRange(x, i, len) <==> x <= i < x + len;
    }
  }

  lemma NewBlock(p: Pool, o: nat, r: Pool, x: int)
    requires Sound(p) && Shape(p) && AllocPages(p, o) == Some((r, x))
    ensures Sound(r) && Shape(r) && |r.order| == |p.order| && 0 <= x < |p.order|
    ensures r.busy == p.busy[x := true] && !p.busy[x] && r.order[x] == o
    ensures forall b | Live(p, b) :: r.order[b] == p.order[b]
  {
    AllocSound(p, o, r, x);
    SoundShape(r);
    var g := Get(p, o).value.0;
    AllocTakesExactly(p, o, g, x);
    hide Inv, Get, AllocPages;
  }

  // Giving a busy block back makes exactly its pages free; every other busy block stays as
  // it is. Giving back what is no busy block changes nothing.
  lemma FreeEffect(p: Pool, h: int)
    requires Sound(p) && Shape(p)
    ensures var r := Run(p, [Free(h)]);
      if Live(p, h) then
        && Sound(r) && Shape(r) && |r.order| == |p.order|
        && (forall i :: i in FreeSet(r) <==> i in FreeSet(p) || h <= i < h + Pow2(p.order[h]))
        && |FreeSet(r)| == |FreeSet(p)| + Pow2(p.order[h])
        && (forall b :: Live(r, b) <==> Live(p, b) && b != h)
        && (forall b | Live(r, b) :: r.order[b] == p.order[b])
      else r == p
  {
    RunOnce(p, Free(h));
    if Live(p, h) {
      FreeConserves(p, h);
      FreeBusy(p, h);
      var r := FreePages(p, h);
      assert Step(p, Free(h)) == r;
      hide Sound, Inv, Step, Run, FreePages, FreeSet;
      InInterval(h, Pow2(p.order[h]));
      forall b ensures Live(r, b) <==> Live(p, b) && b != h {
        LiveIsBusy(p, b);
        LiveIsBusy(r, b);
      }
    }
  }

  lemma FreeBusy(p: Pool, h: int)
    requires Sound(p) && Live(p, h) && Shape(p)
    ensures var r := FreePages(p, h);
      && Sound(r) && Shape(r) && |r.order| == |p.order| && r.busy == p.busy[h := false]
      && forall b | 0 <= b < |r.order| && r.busy[b] :: r.order[b] == p.order[b]
  {
    FreeSound(p, h);
    SoundShape(FreePages(p, h));
    assert h + Pow2(p.order[h]) <= |p.order| by { assert BlockAt(p.order, h); }
    var u := p.(dirty := Mark(p.dirty, h, Pow2(p.order[h]), false));
    DirtyIrrelevant(p, u.dirty);
    FreeReleasesExactly(u, h);
    assert FreePages(p, h) == Put(u, h);
    hide Inv, Put, FreePages;
  }

  // From boot, the first page handed out alone is the first one left over, if there is any;
  // all else comes from the end of the first 256 pages.
  lemma FirstFromBoot(n: nat, o: nat)
    requires o <= 8
    ensures Inv(Init(n), -1)
    ensures AllocPages(Init(n), o).Some? <==> n >= 256 || (o == 0 && n > 0)
    ensures AllocPages(Init(n), o).Some? ==>
      AllocPages(Init(n), o).value.1 == if o == 0 && n % 256 > 0 then n / 256 * 256 else 256 - Pow2(o)
  {
    InitInv(n);
    var p := Init(n);
    MaxPagesFacts(n);
    Pow2Small();
    BootLists(n, o);
    hide Inv, Init, Get;
    if Get(p, o).Some? {
      var (r, x) := Get(p, o).value;
      var (h, q) := Source(p, o);
      AllocSmallestFit(p, o, r, x, h, q);
    }
  }

  lemma BootLists(n: nat, o: nat)
    requires o <= 8
    ensures Inv(Init(n), -1)
    ensures Get(Init(n), o).Some? <==> n >= 256 || (o == 0 && n > 0)
    ensures Get(Init(n), o).Some? ==>
      Source(Init(n), o) == if o == 0 && n % 256 > 0 then (n / 256 * 256, 0) else (0, 8)
  {
    InitInv(n);
    MaxPagesFacts(n);
    var f := InitFree(n);
    assert FirstOrder(f, 8) == if n >= 256 then 8 else 9;
    forall j | 1 <= j <= 8 ensures FirstOrder(f, j) == FirstOrder(f, 8) { BootSearch(f, j); }
    hide Inv;
  }

  lemma {:induction false} BootSearch(f: seq<seq<int>>, j: nat)
    requires |f| == ORDER_NUM && 1 <= j <= 8 && forall i | 1 <= i < 8 :: f[i] == []
    ensures FirstOrder(f, j) == FirstOrder(f, 8)
    decreases 8 - j
  {
    if j < 8 { BootSearch(f, j + 1); }
  }
}
