// What the page pool guarantees: one step and over every run.
module BuddyTheorems {
  import opened Common
  import opened Powers
  import opened BuddySpec

  // ---------- the page array is partitioned ----------

  lemma {:induction false} CoverFrom(order: seq<int>, h: int, i: int) returns (b: int)
    requires Tiled(order) && Head(order, h) && h <= i < |order|
    ensures Head(order, b) && b <= i < b + Pow2(order[b])
    decreases i - h
  {
    assert BlockAt(order, h);
    if i < h + Pow2(order[h]) {
      b := h;
    } else {
      b := CoverFrom(order, h + Pow2(order[h]), i);
    }
  }

  ghost predicate InBlock(order: seq<int>, h: int, i: int) {
    Head(order, h) && h <= i < h + Pow2(order[h])
  }

  // Every page lies in exactly one block, and that block is either busy and on no
  // list, or on the list of its order alone.
  lemma Partition(p: Pool, i: int)
    requires Inv(p, -1) && 0 <= i < |p.order|
    ensures exists h :: InBlock(p.order, h, i)
    ensures forall h, g :: InBlock(p.order, h, i) && InBlock(p.order, g, i) ==> h == g
    ensures forall h :: InBlock(p.order, h, i) ==>
      && h + Pow2(p.order[h]) <= |p.order|
      && forall k | 0 <= k < ORDER_NUM :: h in p.free[k] <==> !p.busy[h] && k == p.order[h]
    ensures PageBusy(p, i) <==> exists h :: InBlock(p.order, h, i) && p.busy[h]
  {
    var b := CoverFrom(p.order, 0, i);
    assert InBlock(p.order, b, i);
    forall h, g | InBlock(p.order, h, i) && InBlock(p.order, g, i)
      ensures h == g
    {
      if h < g { Apart(p.order, h, g); } else if g < h { Apart(p.order, g, h); }
    }
    forall h | InBlock(p.order, h, i)
      ensures h + Pow2(p.order[h]) <= |p.order|
      ensures forall k | 0 <= k < ORDER_NUM :: h in p.free[k] <==> !p.busy[h] && k == p.order[h]
    {
      assert BlockAt(p.order, h);
      forall k | 0 <= k < ORDER_NUM
        ensures h in p.free[k] <==> !p.busy[h] && k == p.order[h]
      {
        assert h in p.free[k] <==> FreeHead(p, h, k);
      }
    }
  }

  // ---------- what splitting and merging leave alone ----------

  ghost predicate SameOutside(p: Pool, r: Pool, lo: int, hi: int)
    requires Shape(p) && Shape(r)
  {
    |r.order| == |p.order| &&
    forall i | 0 <= i < |p.order| && !(lo <= i < hi) :: r.order[i] == p.order[i]
  }

  lemma {:induction false} SplitFrame(p: Pool, h: int, q: nat, o: nat)
    requires Inv(p, h) && Head(p.order, h) && p.order[h] == q && o <= q
    ensures Shape(p) && q <= MAX_ORDER && h + Pow2(q) <= |p.order|
    ensures var (r, x) := Split(p, h, q, o);
            && h <= x && x + Pow2(o) == h + Pow2(q) && |r.order| == |p.order|
            && SameOutside(p, r, h, h + Pow2(q)) && r.busy == p.busy[x := true] && r.order[x] == o
    decreases q
  {
    hide Inv, Split, SplitStep;
    if q == o {
      SplitLast(p, h, o);
    } else {
      var r, m := SplitUnfold(p, h, q, o);
      SplitFrame(r, m, q - 1, o);
    }
  }

  // Busy blocks keep their order through a merge, and no block becomes busy.
  lemma {:induction false} MergeFrame(p: Pool, h: int, k: nat)
    requires Inv(p, h) && Head(p.order, h) && p.order[h] == k && !p.busy[h]
    ensures Merge(p, h, k).busy == p.busy
    ensures forall b | 0 <= b < |p.order| && p.busy[b] :: Merge(p, h, k).order[b] == p.order[b]
    decreases MAX_ORDER - k
  {
    assert Shape(p);
    hide Inv, Merge;
    var joined, r, t := MergeUnfold(p, h, k);
    if joined {
      assert !r.busy[t];
      MergeFrame(r, t, k + 1);
    }
  }

  // ---------- allocation: exact, smallest fit ----------

  // The block that the next allocation of order o cuts from, and its order.
  function Source(p: Pool, o: nat): (s: (int, nat))
    requires Inv(p, -1) && Get(p, o).Some?
  {
    var q := FirstOrder(p.free, o);
    (p.free[q][0], q)
  }

  // Allocation fails exactly when no free block is large enough.
  lemma AllocFailsExactly(p: Pool, o: nat)
    requires Inv(p, -1)
    ensures Get(p, o).None? <==> forall h, k | o <= k <= MAX_ORDER :: !FreeHead(p, h, k)
  {
    if Get(p, o).Some? {
      var q, h := GetUnfold(p, o);
    } else {
      forall h, k | o <= k <= MAX_ORDER
        ensures !FreeHead(p, h, k)
      {
        assert h in p.free[k] <==> FreeHead(p, h, k);
      }
    }
  }

  // Otherwise it cuts the block from the end of a free block of the smallest order
  // that is large enough, and touches no page outside that block.
  lemma AllocSmallestFit(p: Pool, o: nat, r: Pool, x: int, h: int, q: nat)
    requires Inv(p, -1) && Get(p, o) == Some((r, x)) && Source(p, o) == (h, q)
    ensures o <= q <= MAX_ORDER && FreeHead(p, h, q)
    ensures forall g, k | o <= k < q :: !FreeHead(p, g, k)
    ensures h <= x && x + Pow2(o) == h + Pow2(q) <= |p.order|
    ensures Shape(p) && Shape(r) && SameOutside(p, r, h, h + Pow2(q)) && |r.order| == |p.order|
    ensures r.busy == p.busy[x := true] && r.order[x] == o
  {
    hide Inv, Get, Split, FreeHead, SameOutside;
    NoneSmaller(p, o);
    var q', h' := GetUnfold(p, o);
    SplitFrame(PopFront(p, q), h, q, o);
    SameOutsidePopped(p, q, r, h, h + Pow2(q));
  }

  lemma SameOutsidePopped(p: Pool, q: nat, r: Pool, lo: int, hi: int)
    requires Shape(p) && Shape(r) && q < ORDER_NUM && p.free[q] != [] && SameOutside(PopFront(p, q), r, lo, hi)
    ensures SameOutside(p, r, lo, hi)
  {
  }

  lemma NoneSmaller(p: Pool, o: nat)
    requires Inv(p, -1) && Get(p, o).Some?
    ensures forall g, k | o <= k < Source(p, o).1 :: !FreeHead(p, g, k)
  {
    forall g, k | o <= k < Source(p, o).1
      ensures !FreeHead(p, g, k)
    {
      assert g in p.free[k] <==> FreeHead(p, g, k);
    }
  }

  // A free block shares no page with a busy one.
  lemma FreeApartFromBusy(p: Pool, h: int)
    requires Inv(p, -1) && Head(p.order, h) && !p.busy[h]
    ensures forall b | 0 <= b < |p.order| && p.busy[b] ::
      b + Pow2(p.order[b]) <= h || h + Pow2(p.order[h]) <= b
  {
    forall b | 0 <= b < |p.order| && p.busy[b]
      ensures b + Pow2(p.order[b]) <= h || h + Pow2(p.order[h]) <= b
    {
      if b < h { Apart(p.order, b, h); } else { Apart(p.order, h, b); }
    }
  }

  // The pages of the block were free, exactly they become busy, and every other busy
  // block keeps its place and order.
  lemma AllocTakesExactly(p: Pool, o: nat, r: Pool, x: int)
    requires Inv(p, -1) && Get(p, o) == Some((r, x))
    ensures Inv(r, -1) && |r.order| == |p.order| && 0 <= x && x + Pow2(o) <= |p.order| && r.order[x] == o
    ensures forall i | x <= i < x + Pow2(o) :: !PageBusy(p, i)
    ensures forall i | 0 <= i < |p.order| :: PageBusy(r, i) <==> PageBusy(p, i) || x <= i < x + Pow2(o)
    ensures r.busy == p.busy[x := true] && !p.busy[x]
    ensures forall b | 0 <= b < |p.order| && p.busy[b] :: r.order[b] == p.order[b]
  {
    hide Inv, Get, FreeHead, SameOutside, PageBusy, Head;
    var (h, q) := Source(p, o);
    AllocSmallestFit(p, o, r, x, h, q);
    GetInv(p, o);
    CutFree(p, r, h, q, x);
    forall i | 0 <= i < |p.order|
      ensures PageBusy(r, i) <==> PageBusy(p, i) || x <= i < x + Pow2(o)
    {
      BusyAfterAlloc(p, r, x, o, i);
    }
  }

  // Pages of the free block h are in no busy block, and busy blocks lie outside it.
  lemma CutFree(p: Pool, r: Pool, h: int, q: nat, x: int)
    requires Inv(p, -1) && Shape(p) && FreeHead(p, h, q)
    requires Shape(r) && SameOutside(p, r, h, h + Pow2(q)) && h <= x < h + Pow2(q) <= |p.order|
    ensures forall i | h <= i < h + Pow2(q) :: !PageBusy(p, i)
    ensures forall b | 0 <= b < |p.order| && p.busy[b] :: r.order[b] == p.order[b] && b != x
    ensures 0 <= h && !p.busy[x]
  {
    FreeApartFromBusy(p, h);
  }

  lemma BusyAfterAlloc(p: Pool, r: Pool, x: int, o: nat, i: int)
    requires Shape(p) && Shape(r) && |r.order| == |p.order|
    requires 0 <= x < |p.order| && r.busy == p.busy[x := true] && r.order[x] == o
    requires forall b | 0 <= b < |p.order| && p.busy[b] :: r.order[b] == p.order[b] && b != x
    ensures PageBusy(r, i) <==> PageBusy(p, i) || x <= i < x + Pow2(o)
  {
    if PageBusy(p, i) {
      var b :| Head(p.order, b) && p.busy[b] && b <= i < b + Pow2(p.order[b]);
      assert Head(r.order, b) && r.busy[b];
    }
    if x <= i < x + Pow2(o) {
      assert Head(r.order, x) && r.busy[x];
    }
  }

  // ---------- freeing: exact ----------

  // Freeing a busy block makes exactly its pages free, whatever it merges with.
  lemma FreeReleasesExactly(p: Pool, h: int)
    requires Inv(p, -1) && Head(p.order, h) && p.busy[h]
    ensures var r := Put(p, h);
      && Inv(r, -1) && |r.order| == |p.order|
      && r.busy == p.busy[h := false]
      && (forall b | 0 <= b < |p.order| && r.busy[b] :: r.order[b] == p.order[b])
      && (forall i | 0 <= i < |p.order| :: PageBusy(r, i) <==> PageBusy(p, i) && !InBlock(p.order, h, i))
  {
    var k := p.order[h];
    var u := Unbusy(p, h);
    UnbusyInv(p, h);
    MergeInv(u, h, k);
    MergeFrame(u, h, k);
    var r := Put(p, h);
    forall i | 0 <= i < |p.order|
      ensures PageBusy(r, i) <==> PageBusy(p, i) && !InBlock(p.order, h, i)
    {
      BusyAfterFree(p, r, h, i);
    }
  }

  lemma BusyAfterFree(p: Pool, r: Pool, h: int, i: int)
    requires Inv(p, -1) && Head(p.order, h) && p.busy[h]
    requires Shape(r) && |r.order| == |p.order| && r.busy == p.busy[h := false]
    requires forall b | 0 <= b < |p.order| && r.busy[b] :: r.order[b] == p.order[b]
    ensures PageBusy(r, i) <==> PageBusy(p, i) && !InBlock(p.order, h, i)
  {
    if PageBusy(r, i) {
      var b :| Head(r.order, b) && r.busy[b] && b <= i < b + Pow2(r.order[b]);
      assert Head(p.order, b) && p.busy[b];
      if b < h { Apart(p.order, b, h); } else { Apart(p.order, h, b); }
    }
    if PageBusy(p, i) && !InBlock(p.order, h, i) {
      var b :| Head(p.order, b) && p.busy[b] && b <= i < b + Pow2(p.order[b]);
      assert Head(r.order, b) && r.busy[b];
    }
  }

  // ---------- coalescing ----------

  // x and the block after it are free, both of order j, and small enough to join.
  ghost predicate Splinter(p: Pool, x: int, j: nat)
    requires Shape(p)
  {
    j < MAX_ORDER && FreeHead(p, x, j) && FreeHead(p, x + Pow2(j), j)
  }

  ghost predicate SplinterBut(p: Pool, x: int, j: nat, h: int)
    requires Shape(p)
  {
    Splinter(p, x, j) && x != h && x + Pow2(j) != h
  }

  ghost predicate Coalesced(p: Pool)
    requires Shape(p)
  {
    forall x, j {:trigger Splinter(p, x, j)} :: !Splinter(p, x, j)
  }

  lemma NoSplinterJoined(p: Pool, r: Pool, h: int, t: int, k: nat, x: int, j: nat)
    requires Shape(p) && Shape(r) && k < MAX_ORDER && 0 <= t && t + Pow2(k) < |p.order|
    requires r.busy == p.busy && r.order == p.order[t := k + 1][t + Pow2(k) := -1]
    requires h == t || h == t + Pow2(k)
    requires SplinterBut(r, x, j, t)
    ensures SplinterBut(p, x, j, h)
  {
  }

  lemma NoSplinterAlone(p: Pool, h: int, k: nat, x: int, j: nat)
    requires Shape(p) && Head(p.order, h) && p.order[h] == k
    requires k == MAX_ORDER || (!FreeHead(p, h + Pow2(k), k) && !FreeHead(p, h - Pow2(k), k))
    requires Splinter(p, x, j)
    ensures SplinterBut(p, x, j, h)
  {
  }

  lemma NoSplinterPushed(p: Pool, h: int, k: nat, x: int, j: nat)
    requires Shape(p) && k < ORDER_NUM
    requires Splinter(p.(free := p.free[k := [h] + p.free[k]]), x, j)
    ensures Splinter(p, x, j)
  {
  }

  // Merging stops only when neither neighbour fits, so no pair with the new block is left.
  lemma {:induction false} MergeNoSplinter(p: Pool, h: int, k: nat, x: int, j: nat)
    requires Inv(p, h) && Head(p.order, h) && p.order[h] == k
    requires Splinter(Merge(p, h, k), x, j)
    ensures SplinterBut(p, x, j, h)
    decreases MAX_ORDER - k
  {
    hide Inv, Merge, Splinter, SplinterBut, FreeHead;
    PendingInside(p, h);
    var joined, r, t := MergeUnfold(p, h, k);
    if joined {
      MergeNoSplinter(r, t, k + 1, x, j);
      NoSplinterJoined(p, r, h, t, k, x, j);
    } else {
      NoSplinterPushed(p, h, k, x, j);
      NoSplinterAlone(p, h, k, x, j);
    }
  }

  // Splitting happens only when all smaller sufficient lists are empty, so a half put
  // back has no free neighbour of its order.
  lemma {:induction false} SplitNoSplinter(p: Pool, h: int, q: nat, o: nat, x: int, j: nat)
    requires Inv(p, h) && Head(p.order, h) && p.order[h] == q && o <= q <= MAX_ORDER
    requires h + Pow2(q) <= |p.order| && Shape(p)
    requires forall i | o <= i < q :: p.free[i] == []
    requires Splinter(Split(p, h, q, o).0, x, j)
    ensures SplinterBut(p, x, j, h)
    decreases q
  {
    hide Inv, Split, SplitStep, Splinter, SplinterBut, FreeHead;
    if q == o {
      SplitLast(p, h, o);
      BusySplinter(p, h, x, j);
    } else {
      var r, m := SplitUnfold(p, h, q, o);
      SplitNoSplinter(r, m, q - 1, o, x, j);
      UnsplitSplinter(p, h, q, m, r, x, j);
    }
  }

  lemma BusySplinter(p: Pool, h: int, x: int, j: nat)
    requires Shape(p) && 0 <= h < |p.order| && Splinter(p.(busy := p.busy[h := true]), x, j)
    ensures SplinterBut(p, x, j, h)
  {
  }

  lemma UnsplitSplinter(p: Pool, h: int, q: nat, m: int, r: Pool, x: int, j: nat)
    requires Inv(p, h) && Head(p.order, h) && p.order[h] == q > 0
    requires Shape(p) && Shape(r) && q <= MAX_ORDER && p.free[q - 1] == []
    requires m == h + Pow2(q - 1) < |p.order| && r.busy == p.busy && r.order == p.order[h := q - 1][m := q - 1]
    requires SplinterBut(r, x, j, m)
    ensures SplinterBut(p, x, j, h)
  {
    OnlyPending(p, h, q - 1);
    hide Inv;
  }

  lemma OnlyPending(p: Pool, h: int, k: nat)
    requires Inv(p, h) && k < ORDER_NUM && p.free[k] == []
    ensures forall g {:trigger FreeHead(p, g, k)} {:trigger p.order[g]} :: FreeHead(p, g, k) ==> g == h
  {
    forall g | FreeHead(p, g, k)
      ensures g == h
    {
      assert g in p.free[k] <==> FreeHead(p, g, k) && g != h;
    }
  }

  // No step creates two adjacent free blocks that could have been one.
  lemma AllocKeepsCoalesced(p: Pool, o: nat, x: int, j: nat)
    requires Inv(p, -1) && Get(p, o).Some? && Shape(Get(p, o).value.0)
    requires Splinter(Get(p, o).value.0, x, j)
    ensures Shape(p) && Splinter(p, x, j)
  {
    assert Shape(p);
    hide Inv, Get, Split, Splinter, SplinterBut, FreeHead;
    var q, h := GetUnfold(p, o);
    SplitNoSplinter(PopFront(p, q), h, q, o, x, j);
    SplinterPopped(p, q, h, x, j);
  }

  lemma SplinterPopped(p: Pool, q: nat, h: int, x: int, j: nat)
    requires Shape(p) && q < ORDER_NUM && p.free[q] != [] && SplinterBut(PopFront(p, q), x, j, h)
    ensures Splinter(p, x, j)
  {
  }

  lemma FreeKeepsCoalesced(p: Pool, h: int, x: int, j: nat)
    requires Inv(p, -1) && Head(p.order, h) && p.busy[h]
    requires Splinter(Put(p, h), x, j)
    ensures Shape(p) && Splinter(p, x, j)
  {
    PutUnfold(p, h);
    hide Inv, Put, Merge, Splinter, SplinterBut, FreeHead;
    MergeNoSplinter(Unbusy(p, h), h, p.order[h], x, j);
    SplinterUnbusy(p, h, x, j);
  }

  lemma SplinterUnbusy(p: Pool, h: int, x: int, j: nat)
    requires Shape(p) && 0 <= h < |p.order| && SplinterBut(Unbusy(p, h), x, j, h)
    ensures Splinter(p, x, j)
  {
  }

  // ---------- allocating and freeing again ----------

  // Merging climbs back through every level a split went down.
  lemma {:induction false} MergeUndoesSplit(p: Pool, h: int, q: nat, o: nat)
    requires Inv(p, h) && Head(p.order, h) && p.order[h] == q && o <= q <= MAX_ORDER && !p.busy[h]
    requires h + Pow2(q) <= |p.order| && Shape(p)
    requires forall i | o <= i < q :: p.free[i] == []
    ensures var (r, x) := Split(p, h, q, o);
      && Inv(r, -1) && Head(r.order, x) && r.busy[x] && r.order[x] == o
      && Put(r, x) == Merge(p, h, q)
    decreases q
  {
    hide Inv, Split, SplitStep, Merge, Put, FreeHead;
    if q == o {
      SplitLast(p, h, o);
      var r := p.(busy := p.busy[h := true]);
      PutUnfold(r, h);
      assert Unbusy(r, h) == p by { assert r.busy[h := false] == p.busy; }
    } else {
      var r, m := SplitUnfold(p, h, q, o);
      MergeStepUndoesSplitStep(p, h, q, m, r);
      MergeUndoesSplit(r, m, q - 1, o);
    }
  }

  lemma MergeStepUndoesSplitStep(p: Pool, h: int, q: nat, m: int, r: Pool)
    requires Inv(p, h) && Head(p.order, h) && p.order[h] == q > 0
    requires Shape(p) && q <= MAX_ORDER && h + Pow2(q) <= |p.order| && p.free[q - 1] == []
    requires m == h + Pow2(q - 1) && r == SplitStep(p, h, q) && Inv(r, m) && Head(r.order, m) && r.order[m] == q - 1
    requires r.free == p.free[q - 1 := p.free[q - 1] + [h]] && r.order == p.order[h := q - 1][m := q - 1]
    requires r.busy == p.busy
    ensures !r.busy[m] && Merge(r, m, q - 1) == Merge(p, h, q)
  {
    hide Inv, Merge, SplitStep, FreeHead, Without;
    OnlyHalf(p, h, q, m, r);
    SecondHalf(p, h, q);
    MergePrevTurn(r, m, q - 1);
    assert r.order[m := -1][h := q] == p.order;
    WithoutOnly(h);
    assert r.free[q - 1 := []] == p.free;
    SameBut(p, h, q, r);
  }

  lemma SecondHalf(p: Pool, h: int, q: nat)
    requires Inv(p, h) && Head(p.order, h) && p.order[h] == q > 0
    ensures h + Pow2(q - 1) < |p.order| && p.order[h + Pow2(q - 1)] == -1
  {
    assert BlockAt(p.order, h);
    assert Pow2(q) == 2 * Pow2(q - 1);
  }

  lemma WithoutOnly(h: int)
    ensures Without([h], h) == []
  {
  }

  lemma SameBut(p: Pool, h: int, q: nat, r: Pool)
    requires Shape(p) && 0 <= h && 0 < q <= MAX_ORDER && h + Pow2(q) <= |p.order| && r == SplitStep(p, h, q)
    ensures r.(order := p.order, free := p.free) == p
  {
  }

  // After a split the only free block of the new order is the half put back.
  lemma OnlyHalf(p: Pool, h: int, q: nat, m: int, r: Pool)
    requires Shape(p) && q > 0 && q <= MAX_ORDER && p.free[q - 1] == [] && Inv(r, m)
    requires h + Pow2(q) <= |p.order| && m == h + Pow2(q - 1) && r.free == p.free[q - 1 := p.free[q - 1] + [h]]
    requires 0 <= h && r.busy == p.busy && |r.order| == |p.order|
    ensures r.free[q - 1] == [h] && !r.busy[m]
    ensures !FreeHead(r, m + Pow2(q - 1), q - 1) && FreeHead(r, m - Pow2(q - 1), q - 1)
  {
    assert r.free[q - 1] == [h];
    var k, next := q - 1, m + Pow2(q - 1);
    assert FreeHead(r, next, k) && next != m <==> next in r.free[k];
    assert FreeHead(r, h, k) && h != m <==> h in r.free[k];
  }

  // Freeing the block just allocated restores the whole pool, list order included,
  // exactly when the block it was cut from had no free neighbour of its own order.
  lemma AllocFreeIdentity(p: Pool, o: nat)
    requires Inv(p, -1) && Get(p, o).Some?
    ensures var (r, x) := Get(p, o).value; var (h, q) := Source(p, o);
      && Shape(p) && Inv(r, -1) && Head(r.order, x) && r.busy[x]
      && (Put(r, x) == p <==>
            q == MAX_ORDER || (!FreeHead(p, h + Pow2(q), q) && !FreeHead(p, h - Pow2(q), q)))
  {
    hide Inv, Put, Merge, Split, FreeHead, Get;
    var q, h := GetUnfold(p, o);
    FreeHeadNotBusy(p, h, q);
    MergeUndoesSplit(PopFront(p, q), h, q, o);
    MergePopped(p, h, q);
  }

  // In a pool without joinable pairs it always restores the pool.
  lemma CoalescedIdentity(p: Pool, o: nat)
    requires Inv(p, -1) && Get(p, o).Some? && Shape(p) && Coalesced(p)
    ensures var (r, x) := Get(p, o).value; Inv(r, -1) && Head(r.order, x) && Put(r, x) == p
  {
    hide Inv, Put, Get;
    var (h, q) := Source(p, o);
    AllocFreeIdentity(p, o);
    AllocSource(p, o, h, q);
    if q < MAX_ORDER {
      assert !Splinter(p, h, q) && !Splinter(p, h - Pow2(q), q);
    }
  }

  lemma AllocSource(p: Pool, o: nat, h: int, q: nat)
    requires Inv(p, -1) && Get(p, o).Some? && Source(p, o) == (h, q)
    ensures Shape(p) && q <= MAX_ORDER && FreeHead(p, h, q)
  {
    hide Inv, Get;
    var q', h' := GetUnfold(p, o);
  }

  lemma FreeHeadNotBusy(p: Pool, h: int, q: nat)
    requires Shape(p) && FreeHead(p, h, q)
    ensures Head(p.order, h) && !p.busy[h]
  {
  }

  lemma MergePopped(p: Pool, h: int, q: nat)
    requires Shape(p) && q <= MAX_ORDER && p.free[q] != [] && p.free[q][0] == h
    requires Inv(PopFront(p, q), h) && FreeHead(p, h, q)
    ensures Merge(PopFront(p, q), h, q) == p <==>
      q == MAX_ORDER || (!FreeHead(p, h + Pow2(q), q) && !FreeHead(p, h - Pow2(q), q))
  {
    hide Inv, Merge;
    var p0 := PopFront(p, q);
    var joined, r, t := MergeUnfold(p0, h, q);
    assert forall g :: FreeHead(p0, g, q) == FreeHead(p, g, q);
    if !joined {
      assert p.free[q] == [h] + p0.free[q];
      assert p0.free[q := [h] + p0.free[q]] == p.free;
    } else {
      if Merge(p0, h, q) == p {
        assert Splinter(p, t, q);
        MergeNoSplinter(p0, h, q, t, q);
        assert false;
      }
    }
  }
}
