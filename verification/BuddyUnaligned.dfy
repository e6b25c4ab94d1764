// A run that ends with every page free and the initial block not rebuilt, although no
// two free blocks could be joined at any time: one join on the way was not aligned.
module BuddyUnaligned {
  import opened Common
  import opened Powers
  import opened BuddySpec
  import opened BuddyTheorems
  import opened BuddyRuns
  import opened BuddyAligned

  // ---------- single pages, in any pool ----------

  // Where the halves go: each list below the block's order gets the half next to what
  // is left.
  lemma {:induction false} SplitHalves(p: Pool, h: int, q: nat, o: nat, j: nat)
    requires Inv(p, h) && Head(p.order, h) && p.order[h] == q && o <= q <= MAX_ORDER && j < ORDER_NUM
    requires h + Pow2(q) <= |p.order| && Shape(p)
    ensures Split(p, h, q, o).0.free[j] ==
      if o <= j < q then p.free[j] + [h + Pow2(q) - Pow2(j + 1)] else p.free[j]
    decreases q
  {
    hide Inv, Split, SplitStep;
    if q == o {
      SplitLast(p, h, o);
    } else {
      var r, m := SplitUnfold(p, h, q, o);
      assert Pow2(q) == 2 * Pow2(q - 1);
      SplitHalves(r, m, q - 1, o, j);
    }
  }

  // A page taken when the lists below q are empty is the last one of the first block on
  // list q.
  lemma TakePage(p: Pool, q: nat, h: int)
    requires Sound(p) && Shape(p) && q <= MAX_ORDER && p.free[q] != [] && p.free[q][0] == h
    requires forall j | 0 <= j < q :: p.free[j] == []
    ensures var r, x := Step(p, Alloc(0)), h + Pow2(q) - 1;
      && Sound(r) && Shape(r) && |r.order| == |p.order| && 0 <= x < |p.order|
      && r.busy == p.busy[x := true] && r.order[x] == 0
      && (forall b | 0 <= b < |p.order| && p.busy[b] :: r.order[b] == p.order[b])
      && forall j {:trigger r.free[j]} | 0 <= j < ORDER_NUM :: r.free[j] ==
           if j < q then [h + Pow2(q) - Pow2(j + 1)] else if j == q then p.free[q][1..] else p.free[j]
  {
    hide Sound, Inv, Get, Split, PageBusy, Step, AllocPages, DirtyExact, FirstOrder, Source;
    StepSound(p, Alloc(0));
    SoundShape(p);
    SoundShape(Step(p, Alloc(0)));
    FirstIs(p, q);
    var g := TakeParts(p, q, h);
    TakeLists(p, q, h, g);
  }

  // What the step leaves, but for the DIRTY flags, which the pool g does not have yet.
  lemma TakeParts(p: Pool, q: nat, h: int) returns (g: Pool)
    requires Sound(p) && Inv(p, -1) && Shape(p) && q <= MAX_ORDER && p.free[q] != [] && p.free[q][0] == h
    requires FirstOrder(p.free, 0) == q && Get(p, 0).Some? && Source(p, 0) == (h, q)
    ensures var r, x := Step(p, Alloc(0)), h + Pow2(q) - 1;
      && Get(p, 0) == Some((g, x)) && Shape(g) && r.free == g.free && |r.order| == |p.order| && 0 <= x < |p.order|
      && r.busy == p.busy[x := true] && |r.busy| == |r.order| && r.order[x] == 0
      && (forall b | 0 <= b < |p.order| && p.busy[b] :: r.order[b] == p.order[b])
  {
    hide Inv, Get, Split, PageBusy, DirtyExact, SameOutside, FreeHead;
    g := Get(p, 0).value.0;
    var x := Get(p, 0).value.1;
    AllocTakesExactly(p, 0, g, x);
    AllocSmallestFit(p, 0, g, x, h, q);
  }

  lemma TakeLists(p: Pool, q: nat, h: int, g: Pool)
    requires Inv(p, -1) && Shape(p) && q <= MAX_ORDER && p.free[q] != [] && p.free[q][0] == h
    requires FirstOrder(p.free, 0) == q && Get(p, 0).Some? && Get(p, 0).value.0 == g && Shape(g)
    requires forall j | 0 <= j < q :: p.free[j] == []
    ensures forall j {:trigger g.free[j]} | 0 <= j < ORDER_NUM ::
      g.free[j] == if j < q then [h + Pow2(q) - Pow2(j + 1)] else if j == q then p.free[q][1..] else p.free[j]
  {
    hide Inv, Get, Split;
    var q', h' := GetUnfold(p, 0);
    forall j | 0 <= j < ORDER_NUM
      ensures g.free[j] ==
        if j < q then [h + Pow2(q) - Pow2(j + 1)] else if j == q then p.free[q][1..] else p.free[j]
    {
      SplitHalves(PopFront(p, q), h, q, 0, j);
    }
  }

  lemma FirstIs(p: Pool, q: nat)
    requires Inv(p, -1) && Shape(p) && q <= MAX_ORDER && p.free[q] != []
    requires forall j | 0 <= j < q :: p.free[j] == []
    ensures FirstOrder(p.free, 0) == q && Get(p, 0).Some? && Source(p, 0) == (p.free[q][0], q)
  {
  }

  lemma OnList(p: Pool, h: int, x: int, k: nat)
    requires Inv(p, h) && k < ORDER_NUM && x != h
    ensures FreeHead(p, x, k) <==> x in p.free[k]
  {
  }

  lemma FreeUnfold(p: Pool, h: int)
    requires Sound(p) && Head(p.order, h) && p.busy[h] && p.order[h] == 0
    ensures var u := p.(busy := p.busy[h := false], dirty := p.dirty[h := false]);
      Shape(p) && Inv(u, h) && Step(p, Free(h)) == Merge(u, h, 0)
  {
    var d := Mark(p.dirty, h, 1, false);
    assert Pow2(0) == 1;
    assert d == p.dirty[h := false];
    DirtyIrrelevant(p, d);
    PutUnfold(p.(dirty := d), h);
    hide Inv, Merge, Put;
  }

  // A page without a free single neighbour goes on list 0.
  lemma GiveAlone(p: Pool, h: int)
    requires Sound(p) && Head(p.order, h) && p.busy[h] && p.order[h] == 0 && Shape(p)
    requires h - 1 !in p.free[0] && h + 1 !in p.free[0]
    ensures var r := Step(p, Free(h));
      && Sound(r) && Shape(r) && r.order == p.order && r.busy == p.busy[h := false]
      && r.free == p.free[0 := [h] + p.free[0]]
  {
    StepSound(p, Free(h));
    FreeUnfold(p, h);
    hide Sound, Inv, Merge, Step;
    var u := p.(busy := p.busy[h := false], dirty := p.dirty[h := false]);
    assert Pow2(0) == 1;
    OnList(u, h, h + 1, 0);
    OnList(u, h, h - 1, 0);
    MergeNoTurn(u, h, 0);
  }

  // A page with the page before it free joins it, wherever that page lies.
  lemma GiveBehind(p: Pool, h: int)
    requires Sound(p) && Head(p.order, h) && p.busy[h] && p.order[h] == 0 && Shape(p)
    requires h - 1 in p.free[0] && h + 1 !in p.free[0] && h + 1 !in p.free[1] && h - 3 !in p.free[1]
    ensures var r := Step(p, Free(h));
      && Sound(r) && Shape(r) && 0 < h && r.order == p.order[h := -1][h - 1 := 1] && r.busy == p.busy[h := false]
      && r.free == p.free[0 := Without(p.free[0], h - 1)][1 := [h - 1] + p.free[1]]
  {
    hide Sound, Inv, Merge, Step;
    StepSound(p, Free(h));
    SoundShape(p);
    SoundShape(Step(p, Free(h)));
    FreeUnfold(p, h);
    JoinBehind(p.(busy := p.busy[h := false], dirty := p.dirty[h := false]), h);
  }

  lemma JoinBehind(u: Pool, h: int)
    requires Inv(u, h) && Head(u.order, h) && u.order[h] == 0 && Shape(u)
    requires h - 1 in u.free[0] && h + 1 !in u.free[0] && h + 1 !in u.free[1] && h - 3 !in u.free[1]
    ensures 0 < h && Merge(u, h, 0) == u.(order := u.order[h := -1][h - 1 := 1],
      free := u.free[0 := Without(u.free[0], h - 1)][1 := [h - 1] + u.free[1]])
  {
    hide Inv, Merge, FreeHead, Without;
    Pow2Small();
    OnList(u, h, h + 1, 0);
    OnList(u, h, h - 1, 0);
    FreeHeadInside(u, h - 1, 0);
    MergePrevTurn(u, h, 0);
    var t := h - 1;
    var v := u.(order := u.order[h := -1][t := 1], free := u.free[0 := Without(u.free[0], t)]);
    OnList(v, t, t + 2, 1);
    OnList(v, t, t - 2, 1);
    MergeNoTurn(v, t, 1);
  }

  lemma FreeHeadInside(p: Pool, x: int, k: nat)
    requires Shape(p) && FreeHead(p, x, k)
    ensures 0 <= x < |p.order|
  {
  }

  // ---------- the run ----------

  // A pool of 256 pages with the single pages b busy and the first two lists as given.
  ghost predicate Stage(p: Pool, b: set<int>, free0: seq<int>, free1: seq<int>) {
    && Sound(p) && Shape(p) && |p.order| == 256
    && (forall i | 0 <= i < 256 :: p.busy[i] <==> i in b)
    && (forall i | i in b :: 0 <= i < 256 && p.order[i] == 0)
    && p.free[0] == free0 && p.free[1] == free1
  }

  lemma TakeFirst(p: Pool)
    requires p == Init(256) && Sound(p)
    ensures Sound(Step(p, Alloc(0))) && Stage(Step(p, Alloc(0)), {255}, [254], [252])
  {
    hide Sound, Step;
    Pow2Small();
    assert p.free[8] == [0];
    TakePage(p, 8, 0);
  }

  lemma TakeSingle(p: Pool, b: set<int>, h: int, free1: seq<int>)
    requires Stage(p, b, [h], free1)
    ensures Sound(Step(p, Alloc(0))) && Stage(Step(p, Alloc(0)), b + {h}, [], free1)
  {
    hide Sound, Step;
    Pow2Small();
    TakePage(p, 0, h);
  }

  lemma TakeHalf(p: Pool, b: set<int>, h: int)
    requires Stage(p, b, [], [h])
    ensures Sound(Step(p, Alloc(0))) && Stage(Step(p, Alloc(0)), b + {h + 1}, [h], [])
  {
    hide Sound, Step;
    Pow2Small();
    TakePage(p, 1, h);
  }

  lemma GiveSingle(p: Pool, b: set<int>, h: int, free0: seq<int>, free1: seq<int>)
    requires Stage(p, b, free0, free1) && h in b && h - 1 !in free0 && h + 1 !in free0
    ensures Sound(Step(p, Free(h))) && Stage(Step(p, Free(h)), b - {h}, [h] + free0, free1)
    ensures Step(p, Free(h)).order == p.order
  {
    hide Sound, Step;
    GiveAlone(p, h);
  }

  lemma GiveJoining(p: Pool, b: set<int>, h: int)
    requires Stage(p, b, [h - 1], []) && h in b && h - 1 !in b
    ensures Sound(Step(p, Free(h))) && Stage(Step(p, Free(h)), b - {h}, [], [h - 1])
    ensures Step(p, Free(h)).order[h - 1] == 1
  {
    hide Sound, Step;
    GiveBehind(p, h);
    assert Without([h - 1], h - 1) == [];
  }

  lemma RunOne(p: Pool, op: Op, ops: seq<Op>)
    requires Sound(p)
    ensures Sound(Step(p, op)) && Run(p, [op] + ops) == Run(Step(p, op), ops)
  {
    StepSound(p, op);
    assert ([op] + ops)[1..] == ops;
    hide Inv, DirtyExact, Step;
  }

  lemma RunFour(p: Pool, a: Op, b: Op, c: Op, d: Op, ops: seq<Op>, p1: Pool, p2: Pool, p3: Pool, p4: Pool)
    requires Sound(p) && Sound(p1) && Sound(p2) && Sound(p3) && Sound(p4)
    requires Step(p, a) == p1 && Step(p1, b) == p2 && Step(p2, c) == p3 && Step(p3, d) == p4
    ensures Run(p, [a, b, c, d] + ops) == Run(p4, ops)
  {
    hide Inv, DirtyExact, Step, Run;
    RunOne(p, a, [b, c, d] + ops);
    RunOne(p1, b, [c, d] + ops);
    RunOne(p2, c, [d] + ops);
    RunOne(p3, d, ops);
    assert [a, b, c, d] + ops == [a] + ([b, c, d] + ops);
    assert [b, c, d] + ops == [b] + ([c, d] + ops);
    assert [c, d] + ops == [c] + ([d] + ops);
  }

  lemma TwoTaken() returns (p1: Pool, p2: Pool)
    ensures Sound(Init(256)) && Sound(p1) && Sound(p2)
    ensures p1 == Step(Init(256), Alloc(0)) && p2 == Step(p1, Alloc(0))
    ensures Stage(p2, {254, 255}, [], [252])
  {
    InitSound(256);
    hide Inv, DirtyExact, Step, Init, Stage;
    TakeFirst(Init(256));
    p1 := Step(Init(256), Alloc(0));
    TakeSingle(p1, {255}, 254, [252]);
    p2 := Step(p1, Alloc(0));
    assert {255} + {254} == {254, 255};
  }

  lemma TwoMore(p2: Pool) returns (p3: Pool, p4: Pool)
    requires Sound(p2) && Stage(p2, {254, 255}, [], [252])
    ensures Sound(p3) && Sound(p4) && p3 == Step(p2, Alloc(0)) && p4 == Step(p3, Alloc(0))
    ensures Stage(p4, {252, 253, 254, 255}, [], [])
  {
    hide Inv, DirtyExact, Step, Stage;
    TakeHalf(p2, {254, 255}, 252);
    p3 := Step(p2, Alloc(0));
    TakeSingle(p3, {254, 255} + {252 + 1}, 252, []);
    p4 := Step(p3, Alloc(0));
    assert {254, 255} + {252 + 1} + {252} == {252, 253, 254, 255};
  }

  lemma FourTaken(ops: seq<Op>) returns (p: Pool)
    ensures Sound(Init(256)) && Sound(p) && Stage(p, {252, 253, 254, 255}, [], [])
    ensures Run(Init(256), [Alloc(0), Alloc(0), Alloc(0), Alloc(0)] + ops) == Run(p, ops)
  {
    hide Inv, DirtyExact, Step, Run, Init, Stage;
    var p1, p2 := TwoTaken();
    var p3;
    p3, p := TwoMore(p2);
    RunFour(Init(256), Alloc(0), Alloc(0), Alloc(0), Alloc(0), ops, p1, p2, p3, p);
  }

  lemma GiveFour(p: Pool) returns (r: Pool)
    requires Sound(p) && Stage(p, {252, 253, 254, 255}, [], [])
    ensures r == Run(p, [Free(253), Free(254), Free(252), Free(255)])
    ensures Stage(r, {}, [255, 252], [253]) && r.order[253] == 1
  {
    hide Inv, DirtyExact, Step, Run, Stage;
    GiveSingle(p, {252, 253, 254, 255}, 253, [], []);
    var p1 := Step(p, Free(253));
    assert {252, 253, 254, 255} - {253} == {252, 254, 255} && [253] + [] == [253];
    GiveJoining(p1, {252, 254, 255}, 254);
    var p2 := Step(p1, Free(254));
    assert {252, 254, 255} - {254} == {252, 255};
    GiveSingle(p2, {252, 255}, 252, [], [253]);
    var p3 := Step(p2, Free(252));
    assert {252, 255} - {252} == {255} && [252] + [] == [252];
    GiveSingle(p3, {255}, 255, [252], [253]);
    r := Step(p3, Free(255));
    assert {255} - {255} == {} && [255] + [252] == [255, 252];
    RunFour(p, Free(253), Free(254), Free(252), Free(255), [], p1, p2, p3, r);
    assert [Free(253), Free(254), Free(252), Free(255)] + [] == [Free(253), Free(254), Free(252), Free(255)];
    EmptyRun(r);
  }

  lemma EmptyRun(p: Pool)
    requires Sound(p)
    ensures Run(p, []) == p
  {
  }

  lemma OddBlock(p: Pool)
    requires Stage(p, {}, [255, 252], [253]) && p.order[253] == 1
    ensures forall i | 0 <= i < 256 :: !p.busy[i]
    ensures !Aligned(p.order) && p.order != InitOrder(256)
  {
    assert Head(p.order, 253) && !Multiple(253, 1);
    assert InitOrder(256)[253] == -1;
  }

  // Pages 255, 254, 253 and 252 are taken and given back in the order 253, 254, 252, 255.
  // Pages 253 and 254 join, which is not an aligned join, and stay together: in the end
  // every page is free, nothing can be joined, and the initial block is not back.
  lemma NotRebuilt()
    ensures Sound(Init(256))
    ensures var p := Run(Init(256), [Alloc(0), Alloc(0), Alloc(0), Alloc(0)]
                                    + [Free(253), Free(254), Free(252), Free(255)]);
      && Shape(p) && |p.order| == 256 && (forall i | 0 <= i < 256 :: !p.busy[i]) && Coalesced(p)
      && p.order[253] == 1 && !Aligned(p.order) && p.order != InitOrder(256)
  {
    hide Sound, Step, Run, Init, Coalesced, Aligned;
    var gives := [Free(253), Free(254), Free(252), Free(255)];
    var p := FourTaken(gives);
    var r := GiveFour(p);
    EveryRun(256, [Alloc(0), Alloc(0), Alloc(0), Alloc(0)] + gives);
    OddBlock(r);
  }
}
