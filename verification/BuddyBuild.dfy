// Any pages can become a block: taken one by one and given back in ascending order, 2^k
// single pages join into a block that starts wherever the first of them lies.
module BuddyBuild {
  import opened Common
  import opened Powers
  import opened BuddySpec
  import opened BuddyTheorems
  import opened BuddyRuns
  import opened BuddyUnaligned

  // ---------- taking every page ----------

  function Takes(m: nat): seq<Op> {
    seq(m, _ => Alloc(0))
  }

  ghost predicate Full(p: Pool)
    requires Shape(p)
  {
    forall h, k | 0 <= k < ORDER_NUM :: !FreeHead(p, h, k)
  }

  // With no page free no block is, and the other way round.
  lemma FullExactly(p: Pool)
    requires Sound(p) && Shape(p)
    ensures Full(p) <==> FreeSet(p) == {}
  {
    assert Inv(p, -1);
    if FreeSet(p) != {} {
      var i :| i in FreeSet(p);
      var b := CoverFrom(p.order, 0, i);
      assert BlockAt(p.order, b);
      assert FreeHead(p, b, p.order[b]);
    }
    if !Full(p) {
      var h, k :| 0 <= k < ORDER_NUM && FreeHead(p, h, k);
      FreeApartFromBusy(p, h);
      assert h in FreeSet(p);
    }
  }

  // One page taken: what was busy stays, and the page is a block by itself.
  lemma TakeOne(p: Pool) returns (x: int)
    requires Sound(p) && Shape(p) && FreeSet(p) != {}
    ensures var r := Step(p, Alloc(0));
      && Sound(r) && Shape(r) && |r.order| == |p.order|
      && x in FreeSet(p) && FreeSet(r) == FreeSet(p) - {x} && Live(r, x) && r.order[x] == 0
      && forall b | Live(p, b) :: Live(r, b) && r.order[b] == p.order[b]
  {
    hide Sound, Get, AllocPages, FreeSet, Inv;
    FullExactly(p);
    SoundShape(p);
    SomeFree(p);
    var (r, y) := AllocPages(p, 0).value;
    x := y;
    AllocSound(p, 0, r, x);
    AllocConserves(p, 0, r, x);
    OneBlock(p, r, x);
    OneInterval(x);
  }

  lemma OneInterval(x: int)
    ensures Interval(x, Pow2(0)) == {x}
  {
    assert forall i :: i in Interval(x, 1) <==> i == x;
  }

  lemma SomeFree(p: Pool)
    requires Sound(p) && Shape(p) && !Full(p) && Inv(p, -1)
    ensures AllocPages(p, 0).Some?
  {
    hide Inv, Get, FreeHead;
    AllocFailsExactly(p, 0);
  }

  lemma OneBlock(p: Pool, r: Pool, x: int)
    requires Sound(p) && AllocPages(p, 0) == Some((r, x)) && Shape(p) && Shape(r) && |r.order| == |p.order|
    ensures Live(r, x) && r.order[x] == 0
    ensures forall b | Live(p, b) :: Live(r, b) && r.order[b] == p.order[b]
  {
    SoundShape(p);
    GetInv(p, 0);
    AllocSound(p, 0, r, x);
    var g := Get(p, 0).value.0;
    AllocTakesExactly(p, 0, g, x);
    hide Inv, Sound, Get, AllocPages;
  }

  // As many pages taken as are free: then none is, and all that were free are single
  // busy pages.
  lemma {:induction false} TakeAll(p: Pool, m: nat)
    requires Sound(p) && Shape(p) && m == |FreeSet(p)|
    ensures var r := Run(p, Takes(m));
      && Sound(r) && Shape(r) && |r.order| == |p.order| && Full(r)
      && (forall b | Live(p, b) :: Live(r, b) && r.order[b] == p.order[b])
      && (forall i | i in FreeSet(p) :: Live(r, i) && r.order[i] == 0)
    decreases m
  {
    hide Sound, FreeSet, Step, Full;
    if m == 0 {
      assert Takes(m) == [];
      FullExactly(p);
    } else {
      SoundShape(p);
      var x := TakeOne(p);
      assert Takes(m)[1..] == Takes(m - 1) && Takes(m)[0] == Alloc(0);
      TakeAll(Step(p, Alloc(0)), m - 1);
    }
  }

  // ---------- giving pages back in ascending order ----------

  function Gives(x: int, len: nat): seq<Op> {
    seq(len, i requires i >= 0 => Free(x + i))
  }

  lemma GivesSplit(x: int, a: nat, b: nat)
    ensures Gives(x, a + b) == Gives(x, a) + Gives(x + a, b)
  {
  }

  lemma {:induction false} RunConcat(p: Pool, a: seq<Op>, b: seq<Op>)
    requires Sound(p)
    ensures Sound(Run(p, a)) && Run(p, a + b) == Run(Run(p, a), b)
    decreases |a|
  {
    RunSound(p, a);
    hide Sound, Step;
    if a == [] {
      assert a + b == b;
    } else {
      assert (a + b)[1..] == a[1..] + b && (a + b)[0] == a[0];
      StepSound(p, a[0]);
      RunConcat(Step(p, a[0]), a[1..], b);
    }
  }

  // len single busy pages from x on.
  ghost predicate Singles(p: Pool, x: int, len: nat)
    requires Shape(p)
  {
    0 <= x && x + len <= |p.order| && forall i | x <= i < x + len :: p.busy[i] && p.order[i] == 0
  }

  // No block that pages from x to x + 2^k could join with before they are one block.
  ghost predicate Alone(p: Pool, x: int, k: nat)
    requires Shape(p)
  {
    forall j: nat | j < k :: !FreeHead(p, x - Pow2(j), j) && !FreeHead(p, x + Pow2(k), j)
  }

  function BuiltOrder(order: seq<int>, x: int, k: nat): (r: seq<int>)
    requires 0 <= x && x + Pow2(k) <= |order|
    ensures |r| == |order| && r[x] == k
    ensures forall i | 0 <= i < x || x + Pow2(k) <= i < |order| :: r[i] == order[i]
    ensures forall i | x < i < x + Pow2(k) :: r[i] == -1
  {
    order[..x] + [k] + seq(Pow2(k) - 1, _ => -1) + order[x + Pow2(k)..]
  }

  // The pages from x to x + 2^k as one block of order k, not busy and on no list.
  function Built(p: Pool, x: int, k: nat): (r: Pool)
    requires |p.busy| == |p.order| && |p.dirty| == |p.order| && 0 <= x && x + Pow2(k) <= |p.order|
    ensures |r.order| == |p.order| && |r.busy| == |p.busy| && |r.dirty| == |p.dirty| && r.free == p.free
  {
    p.(order := BuiltOrder(p.order, x, k),
       busy := Mark(p.busy, x, Pow2(k), false), dirty := Mark(p.dirty, x, Pow2(k), false))
  }

  lemma BuiltAt(p: Pool, x: int, k: nat, i: int, j: nat)
    requires Shape(p) && 0 <= x && x + Pow2(k) <= |p.order|
    ensures Shape(Built(p, x, k))
    ensures FreeHead(Built(p, x, k), i, j) <==>
      if i == x then j == k else FreeHead(p, i, j) && !(x < i < x + Pow2(k))
  {
    var u := Built(p, x, k);
    if x < i < x + Pow2(k) { assert u.order[i] == -1; }
  }

  // The halves are built one after the other, and the second joins the first.
  lemma {:induction false} Build(p: Pool, x: int, k: nat)
    requires Sound(p) && Shape(p) && k <= MAX_ORDER && Singles(p, x, Pow2(k)) && Alone(p, x, k)
    ensures var u := Built(p, x, k);
      && Inv(u, x) && Head(u.order, x) && u.order[x] == k && Run(p, Gives(x, Pow2(k))) == Merge(u, x, k)
    decreases k
  {
    hide Sound, Inv, Merge, Step, Run, FreeHead, Built, Singles, Alone, Gives;
    if k == 0 {
      assert Pow2(0) == 1;
      BuildOne(p, x);
    } else {
      var h := Pow2(k - 1);
      FirstHalf(p, x, k);
      var m := x + h;
      Build(p, x, k - 1);
      var p1 := StrungFirst(p, x, k);
      Build(p1, m, k - 1);
      Joined(p, p1, x, k, m, Built(p, x, k - 1), Built(p1, m, k - 1), Built(p, x, k));
      GivesSplit(x, h, h);
      RunConcat(p, Gives(x, h), Gives(m, h));
    }
  }

  lemma Joined(p: Pool, p1: Pool, x: int, k: nat, m: int, u: Pool, u2: Pool, v: Pool)
    requires Shape(p) && 0 < k <= MAX_ORDER && Shape(p1) && |p1.order| == |p.order| && 0 <= x
    requires m == x + Pow2(k - 1) && m + Pow2(k - 1) == x + Pow2(k) <= |p.order|
    requires u == Built(p, x, k - 1) && Shape(u) && p1 == u.(free := u.free[k - 1 := [x] + u.free[k - 1]])
    requires u2 == Built(p1, m, k - 1) && v == Built(p, x, k)
    requires Inv(u2, m) && Head(u2.order, m) && u2.order[m] == k - 1 && Alone(p, x, k)
    ensures Inv(v, x) && Head(v.order, x) && v.order[x] == k && Merge(u2, m, k - 1) == Merge(v, x, k)
  {
    hide Inv, Merge, FreeHead, Built, Alone;
    BesideSecond(p, p1, x, k);
    BuiltTwice(p, p1, x, k);
    SecondJoins(u2, v, x, k, p.free[k - 1]);
  }

  lemma BuildOne(p: Pool, x: int)
    requires Sound(p) && Shape(p) && Singles(p, x, 1)
    ensures var u := Built(p, x, 0);
      && Inv(u, x) && Head(u.order, x) && u.order[x] == 0 && Run(p, Gives(x, Pow2(0))) == Merge(u, x, 0)
  {
    hide Sound, Inv, Merge, Step;
    assert Pow2(0) == 1;
    FreeUnfold(p, x);
    var u := Built(p, x, 0);
    assert u == p.(busy := p.busy[x := false], dirty := p.dirty[x := false]);
    StepSound(p, Free(x));
    assert Gives(x, 1) == [Free(x)];
    SoundShape(p);
    EmptyRun(Step(p, Free(x)));
  }

  lemma FirstHalf(p: Pool, x: int, k: nat)
    requires Shape(p) && 0 < k && Singles(p, x, Pow2(k)) && Alone(p, x, k)
    ensures Singles(p, x, Pow2(k - 1)) && Alone(p, x, k - 1)
    ensures 0 <= x < x + Pow2(k - 1) < |p.order| && Pow2(k) == 2 * Pow2(k - 1) && x + Pow2(k) <= |p.order|
  {
    assert Pow2(k) == 2 * Pow2(k - 1);
  }

  // The first half goes on its list, as nothing beside it can be joined.
  lemma StrungFirst(p: Pool, x: int, k: nat) returns (p1: Pool)
    requires Sound(p) && Shape(p) && 0 < k <= MAX_ORDER && Singles(p, x, Pow2(k)) && Alone(p, x, k)
    requires x + Pow2(k - 1) <= |p.order|
    requires var u := Built(p, x, k - 1);
      && Inv(u, x) && Head(u.order, x) && u.order[x] == k - 1 && Run(p, Gives(x, Pow2(k - 1))) == Merge(u, x, k - 1)
    ensures var u := Built(p, x, k - 1);
      && p1 == u.(free := u.free[k - 1 := [x] + u.free[k - 1]]) && p1 == Run(p, Gives(x, Pow2(k - 1)))
      && Sound(p1) && Shape(p1) && x !in p.free[k - 1]
      && Singles(p1, x + Pow2(k - 1), Pow2(k - 1)) && Alone(p1, x + Pow2(k - 1), k - 1)
  {
    hide Sound, Inv, Merge, Run, Built, FreeHead, Singles, Alone;
    var h := Pow2(k - 1);
    var u := Built(p, x, k - 1);
    NotYet(p, u, x, k);
    NotListed(p, x, k);
    RunSound(p, Gives(x, h));
    MergeNoTurn(u, x, k - 1);
    p1 := Run(p, Gives(x, h));
    SoundShape(p1);
    SecondAlone(p, u, p1, x, k);
  }

  lemma NotListed(p: Pool, x: int, k: nat)
    requires Sound(p) && Shape(p) && 0 < k <= MAX_ORDER && Singles(p, x, Pow2(k))
    ensures x !in p.free[k - 1]
  {
    assert Inv(p, -1) && !FreeHead(p, x, k - 1);
    hide DirtyExact, Tiled;
  }

  lemma NotYet(p: Pool, u: Pool, x: int, k: nat)
    requires Shape(p) && 0 < k <= MAX_ORDER && Singles(p, x, Pow2(k)) && Alone(p, x, k)
    requires x + Pow2(k - 1) <= |p.order| && u == Built(p, x, k - 1)
    ensures !FreeHead(u, x + Pow2(k - 1), k - 1) && !FreeHead(u, x - Pow2(k - 1), k - 1)
  {
    hide Built, Alone, FreeHead;
    var h := Pow2(k - 1);
    assert Pow2(k) == 2 * h;
    BuiltAt(p, x, k - 1, x + h, k - 1);
    BuiltAt(p, x, k - 1, x - h, k - 1);
    NotFree(p, x + h, k - 1);
    AloneAt(p, x, k, k - 1);
  }

  lemma NotFree(p: Pool, i: int, k: nat)
    requires Shape(p) && 0 <= i < |p.order| && p.busy[i]
    ensures !FreeHead(p, i, k)
  {
  }

  // From page m on the two pools are the same.
  ghost predicate SameFrom(p: Pool, p1: Pool, m: int)
    requires Shape(p) && Shape(p1)
  {
    |p1.order| == |p.order| && 0 <= m &&
    forall i | m <= i < |p.order| :: p1.order[i] == p.order[i] && p1.busy[i] == p.busy[i]
  }

  lemma BuiltSame(p: Pool, u: Pool, p1: Pool, x: int, k: nat)
    requires Shape(p) && Shape(p1) && 0 <= x && x + Pow2(k) <= |p.order| && u == Built(p, x, k)
    requires p1.order == u.order && p1.busy == u.busy
    ensures SameFrom(p, p1, x + Pow2(k)) && forall i | x < i < x + Pow2(k) :: p1.order[i] == -1
  {
  }

  lemma SecondAlone(p: Pool, u: Pool, p1: Pool, x: int, k: nat)
    requires Shape(p) && Shape(p1) && 0 < k <= MAX_ORDER && Singles(p, x, Pow2(k)) && Alone(p, x, k)
    requires x + Pow2(k - 1) <= |p.order| && u == Built(p, x, k - 1)
    requires p1.order == u.order && p1.busy == u.busy
    ensures Singles(p1, x + Pow2(k - 1), Pow2(k - 1)) && Alone(p1, x + Pow2(k - 1), k - 1)
  {
    hide Built, Singles, Alone;
    FirstHalf(p, x, k);
    BuiltSame(p, u, p1, x, k - 1);
    SinglesLater(p, p1, x, Pow2(k - 1));
    AloneLater(p, p1, x, k);
  }

  lemma SinglesLater(p: Pool, p1: Pool, x: int, h: nat)
    requires Shape(p) && Shape(p1) && Singles(p, x, 2 * h) && SameFrom(p, p1, x + h)
    ensures Singles(p1, x + h, h)
  {
  }

  lemma AloneLater(p: Pool, p1: Pool, x: int, k: nat)
    requires Shape(p) && Shape(p1) && 0 < k <= MAX_ORDER && Alone(p, x, k) && Pow2(k) == 2 * Pow2(k - 1)
    requires 0 <= x && x + Pow2(k - 1) <= |p.order| && SameFrom(p, p1, x + Pow2(k - 1))
    requires forall i | x < i < x + Pow2(k - 1) :: p1.order[i] == -1
    ensures Alone(p1, x + Pow2(k - 1), k - 1)
  {
    hide FreeHead, SameFrom, Pow2;
    forall j: nat | j < k - 1
      ensures !FreeHead(p1, x + Pow2(k - 1) - Pow2(j), j) && !FreeHead(p1, x + Pow2(k - 1) + Pow2(k - 1), j)
    {
      AloneLaterAt(p, p1, x, k, j);
    }
  }

  lemma AloneLaterAt(p: Pool, p1: Pool, x: int, k: nat, j: nat)
    requires Shape(p) && Shape(p1) && 0 < k <= MAX_ORDER && Alone(p, x, k) && Pow2(k) == 2 * Pow2(k - 1)
    requires 0 <= x && x + Pow2(k - 1) <= |p.order| && SameFrom(p, p1, x + Pow2(k - 1)) && j < k - 1
    requires forall i | x < i < x + Pow2(k - 1) :: p1.order[i] == -1
    ensures !FreeHead(p1, x + Pow2(k - 1) - Pow2(j), j) && !FreeHead(p1, x + Pow2(k - 1) + Pow2(k - 1), j)
  {
    AloneAt(p, x, k, j);
    hide FreeHead, Pow2, Alone;
    FreeLater(p, p1, x + Pow2(k - 1), x + Pow2(k), j);
    hide SameFrom;
    InFirst(p1, x, k, j);
  }

  lemma AloneAt(p: Pool, x: int, k: nat, j: nat)
    requires Shape(p) && Alone(p, x, k) && j < k
    ensures !FreeHead(p, x - Pow2(j), j) && !FreeHead(p, x + Pow2(k), j)
  {
    hide FreeHead;
  }

  lemma FreeLater(p: Pool, p1: Pool, m: int, i: int, j: nat)
    requires Shape(p) && Shape(p1) && SameFrom(p, p1, m) && m <= i
    ensures FreeHead(p1, i, j) <==> FreeHead(p, i, j)
  {
  }

  lemma InFirst(p1: Pool, x: int, k: nat, j: nat)
    requires Shape(p1) && j < k - 1 && 0 <= x && x + Pow2(k - 1) <= |p1.order|
    requires forall i | x < i < x + Pow2(k - 1) :: p1.order[i] == -1
    ensures !FreeHead(p1, x + Pow2(k - 1) - Pow2(j), j)
  {
    Pow2Monotone(j, k - 2);
    assert Pow2(k - 1) == 2 * Pow2(k - 2);
  }

  // Built second, the other half joins the first.
  lemma SecondJoins(u2: Pool, v: Pool, x: int, k: nat, list: seq<int>)
    requires Shape(u2) && 0 < k <= MAX_ORDER && 0 <= x < x + Pow2(k - 1) < |u2.order|
    requires var m := x + Pow2(k - 1);
      && Inv(u2, m) && Head(u2.order, m) && u2.order[m] == k - 1
      && FreeHead(u2, m - Pow2(k - 1), k - 1) && !FreeHead(u2, m + Pow2(k - 1), k - 1)
      && v == u2.(order := u2.order[m := -1][x := k], free := u2.free[k - 1 := list])
    requires u2.free[k - 1] == [x] + list
    ensures Inv(v, x) && Head(v.order, x) && v.order[x] == k
    ensures Merge(u2, x + Pow2(k - 1), k - 1) == Merge(v, x, k)
  {
    hide Inv, Merge, FreeHead, Without;
    WithoutFirst(x, list);
    MergePrevTurn(u2, x + Pow2(k - 1), k - 1);
  }

  lemma WithoutFirst(x: int, s: seq<int>)
    ensures Without([x] + s, x) == s
  {
  }

  lemma BesideSecond(p: Pool, p1: Pool, x: int, k: nat)
    requires Shape(p) && 0 < k <= MAX_ORDER && 0 <= x && Alone(p, x, k)
    requires x + Pow2(k - 1) + Pow2(k - 1) <= |p.order| && Shape(p1)
    requires p1.order == Built(p, x, k - 1).order && p1.busy == Built(p, x, k - 1).busy
    ensures var m := x + Pow2(k - 1); var u2 := Built(p1, m, k - 1);
      FreeHead(u2, m - Pow2(k - 1), k - 1) && !FreeHead(u2, m + Pow2(k - 1), k - 1)
  {
    hide Built, FreeHead, Alone;
    var h, m := Pow2(k - 1), x + Pow2(k - 1);
    assert Pow2(k) == 2 * h;
    BuiltAt(p1, m, k - 1, x, k - 1);
    BuiltAt(p1, m, k - 1, m + h, k - 1);
    BuiltAt(p, x, k - 1, x, k - 1);
    BuiltAt(p, x, k - 1, m + h, k - 1);
    SameHeads(Built(p, x, k - 1), p1);
    AloneAt(p, x, k, k - 1);
  }

  lemma BuiltTwice(p: Pool, p1: Pool, x: int, k: nat)
    requires Shape(p) && 0 < k <= MAX_ORDER && Shape(p1)
    requires 0 <= x && x + Pow2(k - 1) <= |p.order| && x + Pow2(k) <= |p.order|
    requires var u := Built(p, x, k - 1); p1 == u.(free := u.free[k - 1 := [x] + u.free[k - 1]])
    ensures x + Pow2(k - 1) + Pow2(k - 1) == x + Pow2(k) && Shape(Built(p1, x + Pow2(k - 1), k - 1))
    ensures var m := x + Pow2(k - 1); var u2 := Built(p1, m, k - 1);
      && u2.free[k - 1] == [x] + p.free[k - 1]
      && Built(p, x, k) == u2.(order := u2.order[m := -1][x := k], free := u2.free[k - 1 := p.free[k - 1]])
  {
    hide BuiltOrder, Mark;
    var h := Pow2(k - 1);
    assert Pow2(k) == 2 * h;
    OrderTwice(p.order, x, k);
    MarkTwice(p.busy, x, h);
    MarkTwice(p.dirty, x, h);
    ListBack(p.free, k - 1, x);
  }

  lemma ListBack(free: seq<seq<int>>, j: nat, x: int)
    requires j < |free|
    ensures free[j := [x] + free[j]][j := free[j]] == free
  {
  }

  lemma MarkTwice(b: seq<bool>, x: int, h: nat)
    requires 0 <= x && x + 2 * h <= |b|
    ensures Mark(Mark(b, x, h, false), x + h, h, false) == Mark(b, x, 2 * h, false)
  {
  }

  lemma OrderTwice(order: seq<int>, x: int, k: nat)
    requires 0 < k && 0 <= x && x + Pow2(k) <= |order|
    ensures Pow2(k) == 2 * Pow2(k - 1)
    ensures var m := x + Pow2(k - 1);
      BuiltOrder(order, x, k) == BuiltOrder(BuiltOrder(order, x, k - 1), m, k - 1)[m := -1][x := k]
  {
    hide BuiltOrder;
    assert Pow2(k) == 2 * Pow2(k - 1);
  }

  // In a full pool, any 2^k single pages become a block of order k where they lie, the
  // only free one.
  lemma BlockAnywhere(p: Pool, x: int, k: nat)
    requires Sound(p) && Shape(p) && Full(p) && k <= MAX_ORDER && Singles(p, x, Pow2(k))
    ensures var r := Run(p, Gives(x, Pow2(k)));
      && Sound(r) && Shape(r) && |r.order| == |p.order| && FreeHead(r, x, k)
      && (forall h, j | 0 <= j < ORDER_NUM && FreeHead(r, h, j) :: h == x && j == k)
      && (forall b | Live(p, b) && !(x <= b < x + Pow2(k)) :: Live(r, b) && r.order[b] == p.order[b])
  {
    hide Sound, Inv, Merge, Run, Built, Full, FreeHead;
    RunSound(p, Gives(x, Pow2(k)));
    FullAlone(p, x, k);
    Build(p, x, k);
    var u := Built(p, x, k);
    StillFull(p, x, k);
    SoundShape(Run(p, Gives(x, Pow2(k))));
    MergeNoTurn(u, x, k);
    SameHeads(u, Run(p, Gives(x, Pow2(k))));
  }

  lemma SameHeads(p: Pool, r: Pool)
    requires |p.busy| == |p.order| && p.order == r.order && p.busy == r.busy
    ensures forall h, j :: FreeHead(p, h, j) <==> FreeHead(r, h, j)
  {
  }

  lemma FullAlone(p: Pool, x: int, k: nat)
    requires Shape(p) && Full(p) && k <= MAX_ORDER
    ensures Alone(p, x, k)
  {
    hide FreeHead;
  }

  lemma StillFull(p: Pool, x: int, k: nat)
    requires Shape(p) && Full(p) && k <= MAX_ORDER && Singles(p, x, Pow2(k))
    ensures var u := Built(p, x, k);
      && FreeHead(u, x, k) && (forall h, j | 0 <= j < ORDER_NUM && FreeHead(u, h, j) :: h == x && j == k)
      && (forall b | Live(p, b) && !(x <= b < x + Pow2(k)) :: Live(u, b) && u.order[b] == p.order[b])
      && !FreeHead(u, x + Pow2(k), k) && !FreeHead(u, x - Pow2(k), k)
  {
    var u := Built(p, x, k);
    BuiltAt(p, x, k, x, k);
    forall b | Live(p, b) && !(x <= b < x + Pow2(k)) ensures Live(u, b) && u.order[b] == p.order[b] {
    }
    hide FreeHead, Built;
    forall h, j | 0 <= j < ORDER_NUM && FreeHead(u, h, j) ensures h == x && j == k {
      BuiltAt(p, x, k, h, j);
    }
  }
}
