// The page pool of mm/mem.c as a value: what every page descriptor says and, for
// each order, the heads of the free blocks in list order.
module BuddySpec {
  import opened Common
  import opened Powers

  const ORDER_NUM: nat := 9
  const MAX_ORDER: nat := 8

  // order[i] is -1 unless page i heads a block; busy and dirty are the flag bits
  // PAGE_BUDDY_BUSY and PAGE_DIRTY; free[k] lists the blocks strung on page_buddy[k].
  datatype Pool = Pool(order: seq<int>, busy: seq<bool>, dirty: seq<bool>, free: seq<seq<int>>)

  // ---------- the invariant ----------

  predicate Head(order: seq<int>, h: int) {
    0 <= h < |order| && order[h] >= 0
  }

  ghost predicate BlockAt(order: seq<int>, h: int)
    requires Head(order, h)
  {
    && order[h] <= MAX_ORDER
    && h + Pow2(order[h]) <= |order|
    && (forall i | h < i < h + Pow2(order[h]) :: order[i] == -1)
    && (h + Pow2(order[h]) < |order| ==> order[h + Pow2(order[h])] >= 0)
  }

  // Blocks tile the page array: the first page heads a block, a block holds no other
  // head, and the page after a block heads the next one.
  ghost predicate Tiled(order: seq<int>) {
    && (|order| > 0 ==> order[0] >= 0)
    && (forall h {:trigger BlockAt(order, h)} | Head(order, h) :: BlockAt(order, h))
    && (forall i | 0 <= i < |order| :: order[i] >= -1)
  }

  predicate FreeHead(p: Pool, h: int, k: int)
    requires |p.busy| == |p.order|
  {
    0 <= h < |p.order| && !p.busy[h] && p.order[h] == k
  }

  // A busy block.
  predicate Live(p: Pool, b: int)
    requires |p.busy| == |p.order|
  {
    Head(p.order, b) && p.busy[b]
  }

  ghost predicate Shape(p: Pool) {
    |p.busy| == |p.order| && |p.dirty| == |p.order| && |p.free| == ORDER_NUM
  }

  ghost predicate FreeExact(p: Pool, pending: int)
    requires Shape(p)
  {
    forall k: int, h: int {:trigger h in p.free[k]} {:trigger FreeHead(p, h, k)} ::
      0 <= k < ORDER_NUM ==> (h in p.free[k] <==> FreeHead(p, h, k) && h != pending)
  }

  // `pending` is a non-busy block that is on no list while it is being split or
  // merged; between operations it is -1.
  ghost predicate Inv(p: Pool, pending: int) {
    && Shape(p)
    && Tiled(p.order)
    && (forall i | 0 <= i < |p.order| :: p.busy[i] ==> p.order[i] >= 0)
    && FreeExact(p, pending)
    && (forall k | 0 <= k < ORDER_NUM :: NoDup(p.free[k]))
    && (pending != -1 ==> Head(p.order, pending) && !p.busy[pending])
  }

  ghost predicate PageBusy(p: Pool, i: int)
    requires Shape(p)
  {
    exists h :: Head(p.order, h) && p.busy[h] && h <= i < h + Pow2(p.order[h])
  }

  // DIRTY marks exactly the pages of busy blocks.
  ghost predicate DirtyExact(p: Pool)
    requires Shape(p)
  {
    forall i | 0 <= i < |p.order| :: p.dirty[i] <==> PageBusy(p, i)
  }

  // ---------- the operations ----------

  function MaxPages(n: nat): nat { n / 256 * 256 }

  function InitOrder(n: nat): (r: seq<int>) {
    seq(n, i => if i < MaxPages(n) then (if i % 256 == 0 then MAX_ORDER else -1) else 0)
  }

  function InitFree(n: nat): seq<seq<int>> {
    [seq(n - MaxPages(n), i requires i >= 0 => MaxPages(n) + i), [], [], [], [], [], [], [],
     seq(n / 256, i requires i >= 0 => i * 256)]
  }

  function Init(n: nat): Pool {
    Pool(InitOrder(n), seq(n, _ => false), seq(n, _ => false), InitFree(n))
  }

  // The smallest order from k on whose list is not empty, ORDER_NUM if there is none.
  function FirstOrder(free: seq<seq<int>>, k: nat): (q: nat)
    requires |free| == ORDER_NUM && k <= ORDER_NUM
    ensures k <= q <= ORDER_NUM
    ensures q < ORDER_NUM ==> free[q] != []
    ensures forall j | k <= j < q :: free[j] == []
    decreases ORDER_NUM - k
  {
    if k == ORDER_NUM || free[k] != [] then k else FirstOrder(free, k + 1)
  }

  // The pending block h of order q gives its first half to list q-1, again and again,
  // until the last part has order o; that part becomes busy.
  function Split(p: Pool, h: int, q: nat, o: nat): (r: (Pool, int))
    requires Shape(p) && o <= q <= MAX_ORDER
    requires 0 <= h && h + Pow2(q) <= |p.order|
    ensures Shape(r.0) && |r.0.order| == |p.order| && r.0.dirty == p.dirty
    decreases q - o
  {
    if q == o then
      (p.(order := p.order[h := o], busy := p.busy[h := true]), h)
    else
      Split(SplitStep(p, h, q), h + Pow2(q - 1), q - 1, o)
  }

  function SplitStep(p: Pool, h: int, q: nat): (r: Pool)
    requires Shape(p) && 0 < q <= MAX_ORDER
    requires 0 <= h && h + Pow2(q) <= |p.order|
    ensures Shape(r) && |r.order| == |p.order| && r.dirty == p.dirty
  {
    p.(order := p.order[h := q - 1][h + Pow2(q - 1) := q - 1],
       free := p.free[q - 1 := p.free[q - 1] + [h]])
  }

  function PopFront(p: Pool, q: nat): (r: Pool)
    requires Shape(p) && q < ORDER_NUM && p.free[q] != []
  {
    p.(free := p.free[q := p.free[q][1..]])
  }

  function Get(p: Pool, o: nat): Option<(Pool, int)>
    requires Inv(p, -1)
  {
    var q := if o <= MAX_ORDER then FirstOrder(p.free, o) else ORDER_NUM;
    if q == ORDER_NUM then None
    else
      var h := p.free[q][0];
      assert FreeHead(p, h, q);
      assert BlockAt(p.order, h);
      Some(Split(PopFront(p, q), h, q, o))
  }

  function MergeNext(p: Pool, h: int, k: nat): (r: Pool)
    requires Shape(p) && k < MAX_ORDER && 0 <= h < |p.order|
    requires FreeHead(p, h + Pow2(k), k) && (h + Pow2(k)) in p.free[k]
    ensures Shape(r) && |r.order| == |p.order| && r.busy == p.busy && r.dirty == p.dirty
  {
    var t := h + Pow2(k);
    p.(order := p.order[h := k + 1][t := -1], free := p.free[k := Without(p.free[k], t)])
  }

  function MergePrev(p: Pool, h: int, k: nat): (r: Pool)
    requires Shape(p) && k < MAX_ORDER && 0 <= h < |p.order|
    requires FreeHead(p, h - Pow2(k), k) && (h - Pow2(k)) in p.free[k]
    ensures Shape(r) && |r.order| == |p.order| && r.busy == p.busy && r.dirty == p.dirty
  {
    var t := h - Pow2(k);
    p.(order := p.order[h := -1][t := k + 1], free := p.free[k := Without(p.free[k], t)])
  }

  // The pending block h of order k absorbs the next or else the previous free block of
  // its own order while there is one, then goes to the front of its list.
  function Merge(p: Pool, h: int, k: nat): (r: Pool)
    requires Inv(p, h) && Head(p.order, h) && p.order[h] == k
    ensures Shape(r) && |r.order| == |p.order| && r.busy == p.busy && r.dirty == p.dirty
    decreases MAX_ORDER - k
  {
    if k < MAX_ORDER && FreeHead(p, h + Pow2(k), k) then
      MergeNextInv(p, h, k);
      Merge(MergeNext(p, h, k), h, k + 1)
    else if k < MAX_ORDER && FreeHead(p, h - Pow2(k), k) then
      MergePrevInv(p, h, k);
      Merge(MergePrev(p, h, k), h - Pow2(k), k + 1)
    else
      assert BlockAt(p.order, h);
      p.(free := p.free[k := [h] + p.free[k]])
  }

  // A page that is not marked busy is left alone, as put_pages_to_list does.
  function Put(p: Pool, h: int): (r: Pool)
    requires Inv(p, -1) && 0 <= h < |p.order|
    ensures Shape(r) && |r.order| == |p.order|
  {
    if !p.busy[h] then p
    else
      UnbusyInv(p, h);
      Merge(Unbusy(p, h), h, p.order[h])
  }

  function Unbusy(p: Pool, h: int): Pool
    requires Shape(p) && 0 <= h < |p.order|
  {
    p.(busy := p.busy[h := false])
  }

  function Mark(dirty: seq<bool>, h: int, len: nat, value: bool): (r: seq<bool>)
    requires 0 <= h && h + len <= |dirty|
    ensures |r| == |dirty|
    ensures forall i | 0 <= i < |r| :: r[i] == if h <= i < h + len then value else dirty[i]
  {
    dirty[..h] + seq(len, _ => value) + dirty[h + len..]
  }

  // alloc_pages: take a block and mark its pages dirty.
  function AllocPages(p: Pool, o: nat): Option<(Pool, int)>
    requires Inv(p, -1)
  {
    match Get(p, o)
    case None => None
    case Some((r, x)) =>
      GetInv(p, o);
      Some((r.(dirty := Mark(r.dirty, x, Pow2(o), true)), x))
  }

  // free_pages, called with the order the block was allocated with.
  function FreePages(p: Pool, h: int): (r: Pool)
    requires Inv(p, -1) && Head(p.order, h) && p.busy[h]
    ensures Shape(r) && |r.order| == |p.order|
  {
    assert BlockAt(p.order, h);
    DirtyIrrelevant(p, Mark(p.dirty, h, Pow2(p.order[h]), false));
    Put(p.(dirty := Mark(p.dirty, h, Pow2(p.order[h]), false)), h)
  }

  lemma DirtyIrrelevant(p: Pool, d: seq<bool>)
    requires Inv(p, -1) && |d| == |p.order|
    ensures Inv(p.(dirty := d), -1)
  {
    var r := p.(dirty := d);
    assert forall k: int, h: int | 0 <= k < ORDER_NUM :: FreeHead(p, h, k) <==> FreeHead(r, h, k);
  }

  // A block handed out lies in the pool, and the pool it leaves is sound.
  lemma GetInv(p: Pool, o: nat)
    requires Inv(p, -1)
    ensures Get(p, o).Some? ==>
      var (r, x) := Get(p, o).value;
      && Inv(r, -1) && |r.order| == |p.order|
      && Head(r.order, x) && r.busy[x] && r.order[x] == o && x + Pow2(o) <= |r.order|
  {
    if Get(p, o).Some? {
      var q, h := GetUnfold(p, o);
      hide Inv, Get;
      SplitInv(PopFront(p, q), h, q, o);
    }
  }

  // ---------- geometry of the tiling ----------

  lemma Apart(order: seq<int>, a: int, b: int)
    requires Tiled(order) && Head(order, a) && Head(order, b) && a < b
    ensures a + Pow2(order[a]) <= b
  {
    assert BlockAt(order, a);
  }

  // ---------- every step keeps the invariant ----------

  lemma UnbusyInv(p: Pool, h: int)
    requires Inv(p, -1) && 0 <= h < |p.order| && p.busy[h]
    ensures Inv(Unbusy(p, h), h) && Head(p.order, h)
  {
    var r := Unbusy(p, h);
    forall k: int, x: int | 0 <= k < ORDER_NUM
      ensures x in r.free[k] <==> FreeHead(r, x, k) && x != h
    {
      assert FreeHead(p, x, k) <==> x in p.free[k];
    }
  }

  lemma MergeNextInv(p: Pool, h: int, k: nat)
    requires Inv(p, h) && Head(p.order, h) && p.order[h] == k < MAX_ORDER
    requires FreeHead(p, h + Pow2(k), k)
    ensures (h + Pow2(k)) in p.free[k]
    ensures var r := MergeNext(p, h, k); Inv(r, h) && Head(r.order, h) && r.order[h] == k + 1
  {
    var t := h + Pow2(k);
    var r := MergeNext(p, h, k);
    JoinTiled(p.order, h, t, k);
    WithoutMembers(p.free[k], t);
    forall j: int, x: int | 0 <= j < ORDER_NUM
      ensures x in r.free[j] <==> FreeHead(r, x, j) && x != h
    {
      assert FreeHead(p, x, j) && x != h <==> x in p.free[j];
    }
  }

  lemma MergePrevInv(p: Pool, h: int, k: nat)
    requires Inv(p, h) && Head(p.order, h) && p.order[h] == k < MAX_ORDER
    requires FreeHead(p, h - Pow2(k), k)
    ensures (h - Pow2(k)) in p.free[k]
    ensures var r := MergePrev(p, h, k); var t := h - Pow2(k);
            Inv(r, t) && Head(r.order, t) && r.order[t] == k + 1
  {
    var t := h - Pow2(k);
    var r := MergePrev(p, h, k);
    JoinTiled(p.order, t, h, k);
    assert p.order[h := -1][t := k + 1] == p.order[t := k + 1][h := -1];
    WithoutMembers(p.free[k], t);
    forall j: int, x: int | 0 <= j < ORDER_NUM
      ensures x in r.free[j] <==> FreeHead(r, x, j) && x != t
    {
      assert FreeHead(p, x, j) && x != h <==> x in p.free[j];
    }
  }

  // Two adjacent blocks of one order join into one block of the next order.
  lemma JoinTiled(order: seq<int>, a: int, b: int, k: nat)
    requires Tiled(order) && Head(order, a) && Head(order, b)
    requires order[a] == order[b] == k < MAX_ORDER && b == a + Pow2(k)
    ensures Tiled(order[a := k + 1][b := -1])
  {
    var r := order[a := k + 1][b := -1];
    forall h | Head(r, h)
      ensures BlockAt(r, h)
    {
      JoinBlock(order, a, b, k, h);
    }
    assert r[0] >= 0 by { assert b > a; }
    hide BlockAt;
  }

  lemma JoinBlock(order: seq<int>, a: int, b: int, k: nat, h: int)
    requires Tiled(order) && Head(order, a) && Head(order, b)
    requires order[a] == order[b] == k < MAX_ORDER && b == a + Pow2(k)
    requires Head(order[a := k + 1][b := -1], h)
    ensures BlockAt(order[a := k + 1][b := -1], h)
  {
    assert BlockAt(order, h);
    if h == a {
      assert BlockAt(order, b);
      assert Pow2(k + 1) == 2 * Pow2(k);
    } else if h < a {
      Apart(order, h, a);
    } else {
      Apart(order, a, h);
      Apart(order, b, h);
    }
  }

  lemma CutTiled(order: seq<int>, h: int, q: nat)
    requires Tiled(order) && Head(order, h) && order[h] == q > 0
    ensures h + Pow2(q - 1) < |order| && Tiled(order[h := q - 1][h + Pow2(q - 1) := q - 1])
  {
    var m := h + Pow2(q - 1);
    assert m < |order| && m > h by { assert BlockAt(order, h); assert Pow2(q) == 2 * Pow2(q - 1); }
    var r := order[h := q - 1][m := q - 1];
    forall x | Head(r, x)
      ensures BlockAt(r, x)
    {
      CutBlock(order, h, q, m, x);
    }
    hide BlockAt;
  }

  lemma CutBlock(order: seq<int>, h: int, q: nat, m: int, x: int)
    requires Tiled(order) && Head(order, h) && order[h] == q > 0 && h < m == h + Pow2(q - 1) < |order|
    requires Head(order[h := q - 1][m := q - 1], x)
    ensures BlockAt(order[h := q - 1][m := q - 1], x)
  {
    if x == h || x == m {
      assert BlockAt(order, h);
      assert Pow2(q) == 2 * Pow2(q - 1);
    } else {
      OtherBlock(order, h, q, m, x);
    }
  }

  lemma OtherBlock(order: seq<int>, h: int, q: nat, m: int, x: int)
    requires Tiled(order) && Head(order, h) && order[h] == q > 0 && h < m == h + Pow2(q - 1) < |order|
    requires Head(order, x) && x != h && x != m
    ensures BlockAt(order[h := q - 1][m := q - 1], x)
  {
    assert BlockAt(order, x);
    if x < h { Apart(order, x, h); } else { Apart(order, h, x); }
  }

  lemma SplitStepInv(p: Pool, h: int, q: nat)
    requires Inv(p, h) && Head(p.order, h) && p.order[h] == q > 0
    ensures h + Pow2(q) <= |p.order| && q <= MAX_ORDER
    ensures var r := SplitStep(p, h, q); var m := h + Pow2(q - 1);
            Inv(r, m) && Head(r.order, m) && r.order[m] == q - 1
  {
    assert BlockAt(p.order, h);
    var m := h + Pow2(q - 1);
    var r := SplitStep(p, h, q);
    CutTiled(p.order, h, q);
    assert p.order[m] == -1;
    forall j: int, x: int | 0 <= j < ORDER_NUM
      ensures x in r.free[j] <==> FreeHead(r, x, j) && x != m
    {
      assert FreeHead(p, x, j) && x != h <==> x in p.free[j];
    }
    forall j | 0 <= j < ORDER_NUM
      ensures NoDup(r.free[j])
    {
      if j == q - 1 {
        assert h !in p.free[j] by { assert !FreeHead(p, h, j); }
      }
    }
  }

  lemma PopFrontInv(p: Pool, q: nat)
    requires Inv(p, -1) && q < ORDER_NUM && p.free[q] != []
    ensures var h := p.free[q][0];
            Inv(PopFront(p, q), h) && Head(p.order, h) && p.order[h] == q && !p.busy[h]
  {
    var h := p.free[q][0];
    var r := PopFront(p, q);
    assert FreeHead(p, h, q);
    forall k: int, x: int | 0 <= k < ORDER_NUM
      ensures x in r.free[k] <==> FreeHead(r, x, k) && x != h
    {
      assert FreeHead(p, x, k) <==> x in p.free[k];
      if k == q { assert p.free[q] == [h] + r.free[q]; }
    }
  }

  lemma PushFrontInv(p: Pool, h: int, k: nat)
    requires Inv(p, h) && Head(p.order, h) && p.order[h] == k
    ensures k < ORDER_NUM && Inv(p.(free := p.free[k := [h] + p.free[k]]), -1)
  {
    assert BlockAt(p.order, h);
    var r := p.(free := p.free[k := [h] + p.free[k]]);
    forall j: int, x: int | 0 <= j < ORDER_NUM
      ensures x in r.free[j] <==> FreeHead(r, x, j)
    {
      assert FreeHead(p, x, j) && x != h <==> x in p.free[j];
      assert FreeHead(p, x, j) <==> FreeHead(r, x, j);
    }
    assert h !in p.free[k];
  }

  // One turn of the split loop.
  lemma SplitUnfold(p: Pool, h: int, q: nat, o: nat) returns (r: Pool, m: int)
    requires Inv(p, h) && Head(p.order, h) && p.order[h] == q > o
    ensures q <= MAX_ORDER && m == h + Pow2(q - 1) && m + Pow2(q - 1) == h + Pow2(q) <= |p.order|
    ensures Shape(p) && Shape(r) && r == SplitStep(p, h, q)
    ensures Inv(r, m) && Head(r.order, m) && r.order[m] == q - 1
    ensures Split(p, h, q, o) == Split(r, m, q - 1, o)
    ensures r.busy == p.busy && r.dirty == p.dirty && r.order == p.order[h := q - 1][m := q - 1]
    ensures r.free == p.free[q - 1 := p.free[q - 1] + [h]]
  {
    hide Inv, Split;
    PendingInside(p, h);
    SplitStepInv(p, h, q);
    r, m := SplitStep(p, h, q), h + Pow2(q - 1);
    assert Pow2(q) == 2 * Pow2(q - 1);
    SplitOnce(p, h, q, o);
  }

  lemma SplitOnce(p: Pool, h: int, q: nat, o: nat)
    requires Shape(p) && o < q <= MAX_ORDER && 0 <= h && h + Pow2(q) <= |p.order|
    ensures h + Pow2(q - 1) + Pow2(q - 1) <= |p.order|
    ensures Split(p, h, q, o) == Split(SplitStep(p, h, q), h + Pow2(q - 1), q - 1, o)
  {
    assert Pow2(q) == 2 * Pow2(q - 1);
    hide SplitStep;
  }

  // The last turn.
  lemma SplitLast(p: Pool, h: int, o: nat)
    requires Inv(p, h) && Head(p.order, h) && p.order[h] == o
    ensures Shape(p) && o <= MAX_ORDER && h + Pow2(o) <= |p.order|
    ensures Split(p, h, o, o) == (p.(busy := p.busy[h := true]), h)
    ensures Inv(p.(busy := p.busy[h := true]), -1)
  {
    assert h + Pow2(o) <= |p.order| && o <= MAX_ORDER by { assert BlockAt(p.order, h); }
    SetBusyInv(p, h, o);
    assert p.order[h := o] == p.order;
    hide Inv;
  }

  lemma {:induction false} SplitInv(p: Pool, h: int, q: nat, o: nat)
    requires Inv(p, h) && Head(p.order, h) && p.order[h] == q && o <= q
    ensures Shape(p) && q <= MAX_ORDER && h + Pow2(q) <= |p.order|
    ensures var (r, x) := Split(p, h, q, o);
            && Inv(r, -1) && Head(r.order, x) && r.busy[x] && r.order[x] == o
            && h <= x && x + Pow2(o) == h + Pow2(q)
    decreases q
  {
    hide Inv, Split, SplitStep;
    if q == o {
      SplitLast(p, h, o);
    } else {
      var r, m := SplitUnfold(p, h, q, o);
      SplitInv(r, m, q - 1, o);
    }
  }

  lemma SetBusyInv(p: Pool, h: int, q: nat)
    requires Inv(p, h) && Head(p.order, h) && p.order[h] == q
    ensures Inv(p.(order := p.order[h := q], busy := p.busy[h := true]), -1)
  {
    var r := p.(order := p.order[h := q], busy := p.busy[h := true]);
    assert r.order == p.order;
    forall k: int, x: int | 0 <= k < ORDER_NUM
      ensures x in r.free[k] <==> FreeHead(r, x, k)
    {
      assert FreeHead(p, x, k) && x != h <==> x in p.free[k];
    }
  }

  lemma PendingInside(p: Pool, h: int)
    requires Inv(p, h) && Head(p.order, h)
    ensures Shape(p) && p.order[h] <= MAX_ORDER && h + Pow2(p.order[h]) <= |p.order|
  {
    assert BlockAt(p.order, h);
  }

  lemma PutUnfold(p: Pool, h: int)
    requires Inv(p, -1) && 0 <= h < |p.order| && Shape(p) && p.busy[h]
    ensures Head(p.order, h) && Inv(Unbusy(p, h), h) && Put(p, h) == Merge(Unbusy(p, h), h, p.order[h])
  {
    UnbusyInv(p, h);
    assert Put(p, h) == Merge(Unbusy(p, h), h, p.order[h]);
    hide Inv, Put, Merge;
  }

  // The three ways a turn of the merge loop can go.
  lemma MergeNextTurn(p: Pool, h: int, k: nat)
    requires Inv(p, h) && Head(p.order, h) && p.order[h] == k < MAX_ORDER
    requires FreeHead(p, h + Pow2(k), k)
    ensures (h + Pow2(k)) in p.free[k]
    ensures var t := h + Pow2(k);
      var r := p.(order := p.order[h := k + 1][t := -1], free := p.free[k := Without(p.free[k], t)]);
      && Inv(r, h) && Head(r.order, h) && r.order[h] == k + 1 && Merge(r, h, k + 1) == Merge(p, h, k)
  {
    MergeNextInv(p, h, k);
    var r := MergeNext(p, h, k);
    assert Merge(p, h, k) == Merge(r, h, k + 1);
    hide Inv, Merge;
  }

  lemma MergePrevTurn(p: Pool, h: int, k: nat)
    requires Inv(p, h) && Head(p.order, h) && p.order[h] == k < MAX_ORDER
    requires !FreeHead(p, h + Pow2(k), k) && FreeHead(p, h - Pow2(k), k)
    ensures (h - Pow2(k)) in p.free[k]
    ensures var t := h - Pow2(k);
      var r := p.(order := p.order[h := -1][t := k + 1], free := p.free[k := Without(p.free[k], t)]);
      && Inv(r, t) && Head(r.order, t) && r.order[t] == k + 1 && Merge(r, t, k + 1) == Merge(p, h, k)
  {
    MergePrevInv(p, h, k);
    var r := MergePrev(p, h, k);
    assert Merge(p, h, k) == Merge(r, h - Pow2(k), k + 1);
    hide Inv, Merge;
  }

  lemma MergeNoTurn(p: Pool, h: int, k: nat)
    requires Inv(p, h) && Head(p.order, h) && p.order[h] == k
    requires k == MAX_ORDER || (!FreeHead(p, h + Pow2(k), k) && !FreeHead(p, h - Pow2(k), k))
    ensures k <= MAX_ORDER && Merge(p, h, k) == p.(free := p.free[k := [h] + p.free[k]])
    ensures Inv(Merge(p, h, k), -1)
  {
    hide Inv, Merge;
    PushFrontInv(p, h, k);
    PendingInside(p, h);
    MergeStops(p, h, k);
  }

  lemma MergeStops(p: Pool, h: int, k: nat)
    requires Inv(p, h) && Head(p.order, h) && p.order[h] == k && Shape(p) && k <= MAX_ORDER
    requires k == MAX_ORDER || (!FreeHead(p, h + Pow2(k), k) && !FreeHead(p, h - Pow2(k), k))
    ensures Merge(p, h, k) == p.(free := p.free[k := [h] + p.free[k]])
  {
    hide Inv;
  }

  // One turn of the merge loop: either the pending block h joins a free neighbour of its
  // order k into the pending block t, or no neighbour fits and it is put on list k.
  lemma MergeUnfold(p: Pool, h: int, k: nat) returns (joined: bool, r: Pool, t: int)
    requires Inv(p, h) && Head(p.order, h) && p.order[h] == k
    ensures k <= MAX_ORDER && h + Pow2(k) <= |p.order|
    ensures joined ==>
      && k < MAX_ORDER && Inv(r, t) && Head(r.order, t) && r.order[t] == k + 1
      && Merge(p, h, k) == Merge(r, t, k + 1)
      && (h == t || h == t + Pow2(k)) && t + Pow2(k) < |p.order|
      && FreeHead(p, if h == t then t + Pow2(k) else t, k)
      && (h != t ==> !FreeHead(p, h + Pow2(k), k))
      && (var s := if h == t then t + Pow2(k) else t; s in p.free[k] && r.free == p.free[k := Without(p.free[k], s)])
      && r.busy == p.busy && r.dirty == p.dirty
      && r.order == p.order[t := k + 1][t + Pow2(k) := -1]
    ensures !joined ==>
      && Merge(p, h, k) == p.(free := p.free[k := [h] + p.free[k]])
      && (k == MAX_ORDER || (!FreeHead(p, h + Pow2(k), k) && !FreeHead(p, h - Pow2(k), k)))
      && Inv(Merge(p, h, k), -1)
  {
    hide Inv, Merge, Without;
    PendingInside(p, h);
    if k < MAX_ORDER && FreeHead(p, h + Pow2(k), k) {
      MergeNextTurn(p, h, k);
      var s := h + Pow2(k);
      joined, t := true, h;
      r := p.(order := p.order[h := k + 1][s := -1], free := p.free[k := Without(p.free[k], s)]);
    } else if k < MAX_ORDER && FreeHead(p, h - Pow2(k), k) {
      MergePrevTurn(p, h, k);
      joined, t := true, h - Pow2(k);
      r := p.(order := p.order[h := -1][t := k + 1], free := p.free[k := Without(p.free[k], t)]);
      assert p.order[h := -1][t := k + 1] == p.order[t := k + 1][h := -1];
    } else {
      MergeNoTurn(p, h, k);
      joined, r, t := false, p, h;
    }
  }

  lemma {:induction false} MergeInv(p: Pool, h: int, k: nat)
    requires Inv(p, h) && Head(p.order, h) && p.order[h] == k
    ensures Inv(Merge(p, h, k), -1)
    decreases MAX_ORDER - k
  {
    hide Inv, Merge;
    var joined, r, t := MergeUnfold(p, h, k);
    if joined {
      MergeInv(r, t, k + 1);
    }
  }

  // A successful allocation splits the first block h of the smallest sufficient list q.
  lemma GetUnfold(p: Pool, o: nat) returns (q: nat, h: int)
    requires Inv(p, -1) && Get(p, o).Some?
    ensures Shape(p) && o <= q <= MAX_ORDER && q == FirstOrder(p.free, o) && p.free[q] != [] && h == p.free[q][0]
    ensures var p0 := PopFront(p, q);
      && Inv(p0, h) && Head(p0.order, h) && p0.order[h] == q && h + Pow2(q) <= |p.order|
      && FreeHead(p, h, q) && Get(p, o) == Some(Split(p0, h, q, o))
  {
    q := FirstOrder(p.free, o);
    h := p.free[q][0];
    PopFrontInv(p, q);
    assert FreeHead(p, h, q);
    assert BlockAt(p.order, h);
    hide Inv;
  }
}
