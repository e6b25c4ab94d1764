// Alignment. Merging looks at neighbours only, so a block need not start at a multiple of
// its size, and freeing everything need not bring the initial blocks back: it does exactly
// when every block is aligned, and a step leaves blocks aligned exactly when its joins do.
module BuddyAligned {
  import opened Common
  import opened Powers
  import opened BuddySpec
  import opened BuddyTheorems
  import opened BuddyRuns

  // Every block that starts before page m starts at a multiple of its size.
  ghost predicate AlignedBelow(order: seq<int>, m: int) {
    forall h {:trigger Head(order, h)} | Head(order, h) && h < m :: Multiple(h, order[h])
  }

  ghost predicate Aligned(order: seq<int>) {
    AlignedBelow(order, |order|)
  }

  lemma AlignedAt(order: seq<int>, h: int)
    requires Aligned(order) && Head(order, h)
    ensures Multiple(h, order[h])
  {
  }

  // ---------- rebuilding the initial blocks ----------

  ghost predicate FreeBelow(p: Pool, m: int)
    requires Shape(p)
  {
    forall h | Head(p.order, h) && h < m :: !p.busy[h]
  }

  ghost predicate CoalescedBelow(p: Pool, m: int)
    requires Shape(p)
  {
    forall x, j {:trigger Splinter(p, x, j)} :: Splinter(p, x, j) ==> m <= x
  }

  // What the argument needs of a pool below page m.
  ghost predicate Quiet(p: Pool, m: int) {
    && Inv(p, -1) && 0 <= m <= |p.order| && Multiple(m, MAX_ORDER)
    && FreeBelow(p, m) && AlignedBelow(p.order, m)
  }

  ghost predicate NoneBelow(order: seq<int>, m: int, k: nat) {
    forall h {:trigger Head(order, h)} | Head(order, h) && h < m :: order[h] >= k
  }

  // Among aligned free blocks one of the smallest order always has a buddy to join, so
  // when nothing is left to join there is no block below the largest order.
  lemma {:induction false} NoSmallBlock(p: Pool, m: int, k: nat)
    requires Quiet(p, m) && k <= MAX_ORDER && Shape(p) && CoalescedBelow(p, m)
    ensures NoneBelow(p.order, m, k)
    decreases k
  {
    hide Quiet, Multiple, Splinter;
    if k > 0 {
      NoSmallBlock(p, m, k - 1);
      forall h | Head(p.order, h) && h < m
        ensures p.order[h] >= k
      {
        if p.order[h] == k - 1 {
          var x := SmallestJoins(p, m, k - 1, h);
          assert false;
        }
      }
    }
  }

  lemma SmallestJoins(p: Pool, m: int, k: nat, g: int) returns (x: int)
    requires Quiet(p, m) && k < MAX_ORDER && NoneBelow(p.order, m, k)
    requires Head(p.order, g) && g < m && p.order[g] == k
    ensures Shape(p) && x < m && Splinter(p, x, k)
  {
    hide Multiple, Tiled, FreeExact, Splinter;
    assert Multiple(g, k);
    MultipleLess(m, k + 1, MAX_ORDER);
    if Multiple(g, k + 1) {
      MultipleRoom(g, m, k + 1);
      assert Pow2(k + 1) == 2 * Pow2(k);
      JoinsNext(p, m, k, g);
      x := g;
    } else {
      x := JoinsPrev(p, m, k, g);
    }
  }

  // The next block starts at a multiple of 2^k but not of 2^(k+1), so it has order k, too.
  lemma JoinsNext(p: Pool, m: int, k: nat, g: int)
    requires Quiet(p, m) && k < MAX_ORDER && NoneBelow(p.order, m, k)
    requires Head(p.order, g) && p.order[g] == k && Multiple(g, k + 1) && g + 2 * Pow2(k) <= m
    ensures Shape(p) && Splinter(p, g, k)
  {
    hide Multiple, FreeExact;
    var b := g + Pow2(k);
    assert BlockAt(p.order, g) && Head(p.order, b);
    MultipleLess(g, k, k + 1);
    MultipleNext(g, k);
    if p.order[b] > k {
      MultipleLess(b, k + 1, p.order[b]);
      assert false;
    }
  }

  // The block before ends at a multiple of 2^k but not of 2^(k+1), so it has order k, too.
  lemma JoinsPrev(p: Pool, m: int, k: nat, g: int) returns (c: int)
    requires Quiet(p, m) && k < MAX_ORDER && NoneBelow(p.order, m, k)
    requires Head(p.order, g) && g < m && p.order[g] == k && Multiple(g, k) && !Multiple(g, k + 1)
    ensures Shape(p) && c < g && Splinter(p, c, k)
  {
    hide Multiple, FreeExact;
    ZeroMultiple(k + 1);
    c := CoverFrom(p.order, 0, g - 1);
    Apart(p.order, c, g);
    var o := p.order[c];
    MultipleNext(c, o);
    if o > k {
      MultipleLess(g, k + 1, o);
      assert false;
    }
  }

  lemma ZeroMultiple(k: nat)
    ensures Multiple(0, k)
  {
    MultipleOf(0, k);
  }

  // Blocks of the largest order only, aligned, are the initial ones.
  lemma LargestAreInitial(p: Pool, n: nat, i: int)
    requires Inv(p, -1) && |p.order| == n && 0 <= i < MaxPages(n)
    requires AlignedBelow(p.order, MaxPages(n)) && NoneBelow(p.order, MaxPages(n), MAX_ORDER)
    ensures p.order[i] == InitOrder(n)[i]
  {
    MaxPagesFacts(n);
    Pow2Small();
    var c := CoverFrom(p.order, 0, i);
    assert BlockAt(p.order, c) && Multiple(c, MAX_ORDER);
    assert c % 256 == 0 && c <= i < c + 256;
    Within(c, i);
  }

  lemma Within(c: int, i: int)
    requires c % 256 == 0 && c <= i < c + 256
    ensures i % 256 == 0 <==> i == c
  {
  }

  // In a pool whose blocks are all free and none can be joined, the blocks of the largest
  // order that the pool started with are back exactly when all blocks are aligned. For a
  // page count with a tail, both sides speak of the pages before the tail.
  lemma RebuiltExactly(p: Pool, n: nat)
    requires Inv(p, -1) && |p.order| == n && FreeBelow(p, MaxPages(n)) && CoalescedBelow(p, MaxPages(n))
    ensures (forall i | 0 <= i < MaxPages(n) :: p.order[i] == InitOrder(n)[i])
      <==> AlignedBelow(p.order, MaxPages(n))
  {
    MaxPagesFacts(n);
    Pow2Small();
    MultipleOf(n / 256, MAX_ORDER);
    hide Inv, FreeBelow, CoalescedBelow;
    var m := MaxPages(n);
    if AlignedBelow(p.order, m) {
      assert Quiet(p, m);
      NoSmallBlock(p, m, MAX_ORDER);
      forall i | 0 <= i < m ensures p.order[i] == InitOrder(n)[i] {
        LargestAreInitial(p, n, i);
      }
    }
    if forall i | 0 <= i < m :: p.order[i] == InitOrder(n)[i] {
      forall h | Head(p.order, h) && h < m ensures Multiple(h, p.order[h]) {
        assert p.order[h] == InitOrder(n)[h];
      }
    }
  }

  // ---------- what a step does to alignment ----------

  lemma CutAligned(order: seq<int>, h: int, q: nat)
    requires Aligned(order) && Tiled(order) && Head(order, h) && order[h] == q > 0 && h + Pow2(q - 1) < |order|
    ensures Aligned(order[h := q - 1][h + Pow2(q - 1) := q - 1])
  {
    hide Multiple, Tiled;
    AlignedAt(order, h);
    MultipleLess(h, q - 1, q);
    MultipleNext(h, q - 1);
    var m := h + Pow2(q - 1);
    var r := order[h := q - 1][m := q - 1];
    forall x | Head(r, x) ensures Multiple(x, r[x]) {
      if x != h && x != m { assert Head(order, x); }
    }
  }

  lemma {:induction false} SplitAligned(p: Pool, h: int, q: nat, o: nat)
    requires Inv(p, h) && Head(p.order, h) && p.order[h] == q && o <= q <= MAX_ORDER
    requires h + Pow2(q) <= |p.order| && Shape(p) && Aligned(p.order)
    ensures Aligned(Split(p, h, q, o).0.order)
    decreases q
  {
    hide Inv, Split, SplitStep, Aligned;
    if q == o {
      SplitLast(p, h, o);
    } else {
      var r, m := SplitUnfold(p, h, q, o);
      InvTiled(p, h);
      assert Pow2(q) == 2 * Pow2(q - 1);
      CutAligned(p.order, h, q);
      SplitAligned(r, m, q - 1, o);
    }
  }

  lemma InvTiled(p: Pool, pending: int)
    requires Inv(p, pending)
    ensures Tiled(p.order) && Shape(p)
  {
  }

  // Allocation keeps blocks aligned.
  lemma AllocAligned(p: Pool, o: nat, r: Pool, x: int)
    requires Inv(p, -1) && AllocPages(p, o) == Some((r, x)) && Aligned(p.order)
    ensures Aligned(r.order) && |r.order| == |p.order|
  {
    hide Inv, Get, Split, Aligned;
    var q, h := GetUnfold(p, o);
    SplitAligned(PopFront(p, q), h, q, o);
    GetInv(p, o);
  }

  // Joining the aligned blocks at t and t + 2^k leaves blocks aligned exactly when the
  // lower one starts at a multiple of the size of both.
  lemma JoinAlignedExactly(order: seq<int>, t: int, k: nat)
    requires Aligned(order) && Head(order, t) && order[t] == k && t + Pow2(k) < |order|
    ensures Aligned(order[t := k + 1][t + Pow2(k) := -1]) <==> Multiple(t, k + 1)
  {
    hide Multiple;
    var r := order[t := k + 1][t + Pow2(k) := -1];
    assert Head(r, t) && r[t] == k + 1;
    if Multiple(t, k + 1) {
      forall x | Head(r, x) ensures Multiple(x, r[x]) {
        if x != t { assert Head(order, x); }
      }
    }
  }

  // Every join of the merge loop meets that condition.
  ghost predicate JoinsAligned(p: Pool, h: int, k: nat)
    requires Inv(p, h) && Head(p.order, h) && p.order[h] == k
    decreases MAX_ORDER - k
  {
    if k < MAX_ORDER && FreeHead(p, h + Pow2(k), k) then
      MergeNextInv(p, h, k);
      Multiple(h, k + 1) && JoinsAligned(MergeNext(p, h, k), h, k + 1)
    else if k < MAX_ORDER && FreeHead(p, h - Pow2(k), k) then
      MergePrevInv(p, h, k);
      Multiple(h - Pow2(k), k + 1) && JoinsAligned(MergePrev(p, h, k), h - Pow2(k), k + 1)
    else true
  }

  // One turn: the join, if there is one, and the turns after it.
  lemma JoinsUnfold(p: Pool, h: int, k: nat) returns (joined: bool, r: Pool, t: int)
    requires Inv(p, h) && Head(p.order, h) && p.order[h] == k && Shape(p)
    ensures k <= MAX_ORDER
    ensures joined ==>
      && k < MAX_ORDER && Head(p.order, t) && p.order[t] == k && t + Pow2(k) < |p.order|
      && r.order == p.order[t := k + 1][t + Pow2(k) := -1]
      && Inv(r, t) && Head(r.order, t) && r.order[t] == k + 1 && Merge(r, t, k + 1) == Merge(p, h, k)
      && (JoinsAligned(p, h, k) <==> Multiple(t, k + 1) && JoinsAligned(r, t, k + 1))
    ensures !joined ==> JoinsAligned(p, h, k) && Merge(p, h, k).order == p.order
    ensures joined <==> k < MAX_ORDER && (FreeHead(p, h + Pow2(k), k) || FreeHead(p, h - Pow2(k), k))
  {
    hide Inv, Merge, Multiple;
    PendingInside(p, h);
    if k < MAX_ORDER && FreeHead(p, h + Pow2(k), k) {
      joined, t := true, h;
      MergeNextTurn(p, h, k);
      r := p.(order := p.order[h := k + 1][h + Pow2(k) := -1],
              free := p.free[k := Without(p.free[k], h + Pow2(k))]);
      assert r == MergeNext(p, h, k);
    } else if k < MAX_ORDER && FreeHead(p, h - Pow2(k), k) {
      joined, t := true, h - Pow2(k);
      MergePrevTurn(p, h, k);
      r := MergePrev(p, h, k);
      assert p.order[h := -1][t := k + 1] == p.order[t := k + 1][h := -1];
    } else {
      joined, t, r := false, h, p;
      MergeNoTurn(p, h, k);
    }
  }

  // An aligned pool with the pending block merged is aligned exactly when all joins were.
  lemma {:induction false} MergeAlignedExactly(p: Pool, h: int, k: nat)
    requires Inv(p, h) && Head(p.order, h) && p.order[h] == k && Aligned(p.order)
    ensures Aligned(Merge(p, h, k).order) <==> JoinsAligned(p, h, k)
    decreases MAX_ORDER - k
  {
    InvTiled(p, h);
    hide Inv, Merge, Multiple, JoinsAligned, Aligned, FreeHead;
    var joined, r, t := JoinsUnfold(p, h, k);
    if joined {
      JoinAlignedExactly(p.order, t, k);
      if Multiple(t, k + 1) {
        MergeAlignedExactly(r, t, k + 1);
      } else {
        MisalignedStays(p, r, t, k);
      }
    }
  }

  // A misaligned block has no aligned neighbour of its order, so it stays as it is.
  lemma MisalignedStays(p: Pool, r: Pool, t: int, k: nat)
    requires Aligned(p.order) && Head(p.order, t) && t + Pow2(k) < |p.order| && !Multiple(t, k + 1)
    requires r.order == p.order[t := k + 1][t + Pow2(k) := -1] && Shape(r)
    requires Inv(r, t) && Head(r.order, t) && r.order[t] == k + 1
    ensures !Aligned(Merge(r, t, k + 1).order)
  {
    hide Inv, Merge, Multiple, JoinsAligned, Aligned, FreeHead;
    NoAlignedNeighbour(p, r, t, k, t + Pow2(k + 1));
    MultipleNext(t, k + 1);
    if t >= Pow2(k + 1) {
      NoAlignedNeighbour(p, r, t, k, t - Pow2(k + 1));
      MultipleNext(t - Pow2(k + 1), k + 1);
    }
    NotBefore(r, t - Pow2(k + 1), k + 1);
    var joined, r', t' := JoinsUnfold(r, t, k + 1);
    NotAligned(r.order, t);
  }

  lemma NoAlignedNeighbour(p: Pool, r: Pool, t: int, k: nat, g: int)
    requires Aligned(p.order) && Head(p.order, t) && t + Pow2(k) < |p.order| && Shape(r) && g != t
    requires r.order == p.order[t := k + 1][t + Pow2(k) := -1]
    ensures FreeHead(r, g, k + 1) ==> g >= 0 && Multiple(g, k + 1)
  {
    hide Multiple;
    if FreeHead(r, g, k + 1) { assert Head(p.order, g); }
  }

  lemma NotBefore(r: Pool, g: int, k: nat)
    requires Shape(r)
    ensures FreeHead(r, g, k) ==> g >= 0
  {
  }

  lemma NotAligned(order: seq<int>, h: int)
    requires Head(order, h) && !Multiple(h, order[h])
    ensures !Aligned(order)
  {
    hide Multiple;
  }

  // Every join made by freeing the block h meets the condition.
  ghost predicate FreeJoinsAligned(p: Pool, h: int)
    requires Inv(p, -1) && Head(p.order, h) && p.busy[h]
  {
    UnbusyInv(p, h);
    JoinsAligned(Unbusy(p, h), h, p.order[h])
  }

  // Freeing leaves aligned blocks aligned exactly when all its joins are.
  lemma FreeAlignedExactly(p: Pool, h: int)
    requires Inv(p, -1) && Head(p.order, h) && p.busy[h] && Aligned(p.order)
    ensures Aligned(Put(p, h).order) <==> FreeJoinsAligned(p, h)
  {
    UnbusyInv(p, h);
    MergeAlignedExactly(Unbusy(p, h), h, p.order[h]);
  }

  // ---------- over every run ----------

  lemma InitAligned(n: nat)
    ensures Aligned(Init(n).order)
  {
    MaxPagesFacts(n);
    Pow2Small();
    forall h | Head(InitOrder(n), h) ensures Multiple(h, InitOrder(n)[h]) {
    }
  }

  // free_pages clears the DIRTY flags first; the joins do not look at them.
  ghost predicate StepJoinsAligned(p: Pool, op: Op)
    requires Sound(p)
  {
    match op
    case Alloc(_) => true
    case Free(h) =>
      Head(p.order, h) && p.busy[h] ==>
        (FreeReady(p, h);
         FreeJoinsAligned(p.(dirty := Mark(p.dirty, h, Pow2(p.order[h]), false)), h))
  }

  lemma FreeReady(p: Pool, h: int)
    requires Sound(p) && Head(p.order, h) && p.busy[h]
    ensures Shape(p) && h + Pow2(p.order[h]) <= |p.order|
    ensures var u := p.(dirty := Mark(p.dirty, h, Pow2(p.order[h]), false)); Inv(u, -1) && FreePages(p, h) == Put(u, h)
  {
    assert BlockAt(p.order, h);
    DirtyIrrelevant(p, Mark(p.dirty, h, Pow2(p.order[h]), false));
    hide Inv, Put;
  }

  lemma StepAlignedExactly(p: Pool, op: Op)
    requires Sound(p) && Aligned(p.order)
    ensures Aligned(Step(p, op).order) <==> StepJoinsAligned(p, op)
  {
    hide Sound, Aligned, FreePages, AllocPages, FreeJoinsAligned, Put;
    SoundShape(p);
    match op
    case Alloc(o) =>
      if AllocPages(p, o).Some? {
        AllocAligned(p, o, AllocPages(p, o).value.0, AllocPages(p, o).value.1);
      }
    case Free(h) =>
      if Head(p.order, h) && p.busy[h] {
        FreeReady(p, h);
        FreeAlignedExactly(p.(dirty := Mark(p.dirty, h, Pow2(p.order[h]), false)), h);
      }
  }

  // Every join made in the run meets the condition.
  ghost predicate RunJoinsAligned(p: Pool, ops: seq<Op>)
    requires Sound(p)
    decreases |ops|
  {
    ops == [] ||
    (StepSound(p, ops[0]);
     StepJoinsAligned(p, ops[0]) && RunJoinsAligned(Step(p, ops[0]), ops[1..]))
  }

  ghost predicate AlignedThroughout(p: Pool, ops: seq<Op>)
    requires Sound(p)
    decreases |ops|
  {
    Aligned(p.order) &&
    (ops == [] ||
     (StepSound(p, ops[0]);
      AlignedThroughout(Step(p, ops[0]), ops[1..])))
  }

  // Blocks are aligned in every state of a run exactly when every join of the run was.
  lemma {:induction false} RunAlignedExactly(p: Pool, ops: seq<Op>)
    requires Sound(p) && Aligned(p.order)
    ensures AlignedThroughout(p, ops) <==> RunJoinsAligned(p, ops)
    ensures AlignedThroughout(p, ops) ==> Aligned(Run(p, ops).order)
    decreases |ops|
  {
    hide Sound, Aligned, StepJoinsAligned;
    if ops != [] {
      SoundShape(p);
      StepSound(p, ops[0]);
      StepAlignedExactly(p, ops[0]);
      if Aligned(Step(p, ops[0]).order) {
        RunAlignedExactly(Step(p, ops[0]), ops[1..]);
      }
    }
  }

  // From boot: when the run has ended with every page before the tail free, the initial
  // blocks are back there exactly when the blocks are aligned, and certainly when every
  // join was. Without a tail this is the whole pool.
  lemma RunRebuildsExactly(n: nat, ops: seq<Op>)
    ensures Sound(Init(n)) && Shape(Run(Init(n), ops)) && |Run(Init(n), ops).order| == n
    ensures var p := Run(Init(n), ops);
      FreeBelow(p, MaxPages(n)) ==>
        && ((forall i | 0 <= i < MaxPages(n) :: p.order[i] == InitOrder(n)[i]) <==> AlignedBelow(p.order, MaxPages(n)))
        && (RunJoinsAligned(Init(n), ops) ==> AlignedBelow(p.order, MaxPages(n)))
        && (n % 256 == 0 ==> (p.order == InitOrder(n) <==> Aligned(p.order)))
  {
    InitSound(n);
    var p0, p := Init(n), Run(Init(n), ops);
    EveryRun(n, ops);
    SoundShape(p);
    hide Sound, Inv, Init, Run, Splinter, FreeBelow, RunJoinsAligned, AlignedThroughout, Multiple;
    MaxPagesFacts(n);
    InitAligned(n);
    if FreeBelow(p, MaxPages(n)) {
      RebuiltExactly(p, n);
    }
    if RunJoinsAligned(p0, ops) {
      RunAlignedExactly(p0, ops);
      AlignedPrefix(p.order, MaxPages(n));
    }
  }

  lemma AlignedPrefix(order: seq<int>, m: int)
    requires Aligned(order)
    ensures AlignedBelow(order, m)
  {
    hide Multiple;
  }

  // With the initial order of every page back and nothing busy, the pool is the initial
  // one but for the order of blocks on their lists.
  lemma RebuiltPool(p: Pool, n: nat)
    requires Sound(p) && Shape(p) && |p.order| == n && p.order == InitOrder(n)
    requires forall i | 0 <= i < n :: !p.busy[i]
    ensures p.busy == Init(n).busy && p.dirty == Init(n).dirty
    ensures forall k, h {:trigger h in p.free[k]} | 0 <= k < ORDER_NUM :: h in p.free[k] <==> h in Init(n).free[k]
  {
    InitInv(n);
    NothingDirty(p);
    forall k, h | 0 <= k < ORDER_NUM ensures h in p.free[k] <==> h in Init(n).free[k] {
      assert FreeHead(p, h, k) <==> FreeHead(Init(n), h, k);
    }
    hide Inv, DirtyExact;
  }

  lemma NothingDirty(p: Pool)
    requires Sound(p) && Shape(p) && forall i | 0 <= i < |p.order| :: !p.busy[i]
    ensures forall i | 0 <= i < |p.order| :: !p.dirty[i]
  {
    hide Inv;
  }
}
