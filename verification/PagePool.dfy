// The buddy allocator of mm/mem.c, in place on the page descriptors.
module PagePools {
  import opened Common
  import opened Powers
  import opened BuddySpec
  import opened BuddyLinks
  import opened BuddyInit
  import opened BuddyRuns

  function BuddyEnd(pg: int, k: nat): int { pg + Pow2(k) - 1 }

  class PagePool {
    const n: nat
    // One entry for each struct page.
    const order: array<int>
    const busy: array<bool>
    const dirty: array<bool>
    // One entry for each struct page, then one for each head in page_buddy.
    const next: array<int>
    const prev: array<int>
    // What the descriptors say, with the blocks strung on each list; and the links.
    ghost var pool: Pool
    ghost var nx: seq<int>
    ghost var pv: seq<int>

    ghost predicate Wired() {
      && order.Length == n && busy.Length == n && dirty.Length == n
      && next.Length == n + ORDER_NUM && prev.Length == n + ORDER_NUM
      && order != next && order != prev && next != prev && busy != dirty
    }

    ghost predicate TiedLinks()
      reads this`nx, this`pv, next, prev
    {
      Wired() && nx == next[..] && pv == prev[..]
    }

    ghost predicate Tied()
      reads this, order, busy, dirty, next, prev
    {
      TiedLinks() && pool.order == order[..] && pool.busy == busy[..] && pool.dirty == dirty[..]
    }

    ghost predicate Valid()
      reads this, order, busy, dirty, next, prev
    {
      Tied() && Inv(pool, -1) && Linked(pool, nx, pv)
    }

    // ---------- boot ----------

    constructor (pages: nat)
      ensures Valid() && n == pages && pool == Init(n)
      ensures fresh(order) && fresh(busy) && fresh(dirty) && fresh(next) && fresh(prev)
    {
      n := pages;
      order := new int[pages];
      busy := new bool[pages];
      dirty := new bool[pages];
      next := new int[pages + ORDER_NUM];
      prev := new int[pages + ORDER_NUM];
      new;
      InitPageMap();
    }

    method InitPageBuddy()
      requires Wired()
      modifies this`nx, this`pv, next, prev
      ensures TiedLinks() && Strung(n, 0, nx, pv)
    {
      for i := 0 to ORDER_NUM
        invariant forall r | n <= r < n + i :: next[r] == r && prev[r] == r
      {
        next[n + i] := n + i;
        prev[n + i] := n + i;
      }
      nx, pv := next[..], prev[..];
      MaxPagesFacts(n);
    }

    method InitPageMap()
      requires Wired()
      modifies this`pool, this`nx, this`pv, order, busy, dirty, next, prev
      ensures Valid() && pool == Init(n)
    {
      hide Inv, Linked, Strung;
      InitPageBuddy();
      MaxPagesFacts(n);
      var i := 0;
      while i < n
        invariant i <= n && TiedLinks() && Strung(n, i, nx, pv)
        invariant forall j | 0 <= j < i :: order[j] == InitOrder(n)[j] && !busy[j] && !dirty[j]
      {
        busy[i], dirty[i] := false, false;
        InitListHead(i);
        if i < n / 256 * 256 {
          order[i] := if i % 256 == 0 then MAX_ORDER else -1;
          ListAddTail(i, n + MAX_ORDER);
        } else {
          order[i] := 0;
          ListAddTail(i, n);
        }
        i := i + 1;
      }
      pool := Init(n);
      StrungLinked(n, nx, pv);
      InitInv(n);
      assert order[..] == InitOrder(n);
    }

    method InitListHead(i: nat)
      requires TiedLinks() && i < n && Strung(n, i, nx, pv)
      modifies this`nx, this`pv, next, prev
      ensures TiedLinks() && Strung(n, i, nx, pv)
    {
      StringLater(n, i, nx, pv, i, i);
      hide Strung;
      next[i], prev[i] := i, i;
      nx, pv := nx[i := i], pv[i := i];
    }

    method ListAddTail(i: nat, head: int)
      requires TiedLinks() && i < n && head == RootFor(n, i) && Strung(n, i, nx, pv)
      modifies this`nx, this`pv, next, prev
      ensures TiedLinks() && Strung(n, i + 1, nx, pv)
    {
      StringOne(n, i, nx, pv);
      hide Strung;
      ListAddChainTail(i, i, head);
    }

    // ---------- chains ----------

    method ListRemoveChain(ch: int, ct: int)
      requires TiedLinks() && 0 <= ch < |pv| && 0 <= ct < |nx|
      requires 0 <= pv[ch] < |nx| && 0 <= nx[ct] < |pv| && pv[ch] != ct
      modifies this`nx, this`pv, next, prev
      ensures TiedLinks()
      ensures nx == RemoveNext(old(nx), old(pv), ch, ct) && pv == RemovePrev(old(nx), old(pv), ch, ct)
    {
      next[prev[ch]] := next[ct];
      prev[next[ct]] := prev[ch];
      nx, pv := RemoveNext(nx, pv, ch, ct), RemovePrev(nx, pv, ch, ct);
    }

    method ListAddChain(ch: int, ct: int, head: int)
      requires TiedLinks() && 0 <= ch < |pv| && 0 <= ct < |nx| && 0 <= head < |nx|
      requires 0 <= nx[head] < |pv| && ct != head
      modifies this`nx, this`pv, next, prev
      ensures TiedLinks()
      ensures nx == AddNext(old(nx), ch, ct, head) && pv == AddPrev(old(nx), old(pv), ch, ct, head)
    {
      prev[ch] := head;
      next[ct] := next[head];
      prev[next[head]] := ct;
      next[head] := ch;
      nx, pv := AddNext(nx, ch, ct, head), AddPrev(nx, pv, ch, ct, head);
    }

    method ListAddChainTail(ch: int, ct: int, head: int)
      requires TiedLinks() && 0 <= ch < |pv| && 0 <= ct < |nx| && 0 <= head < |nx|
      requires 0 <= pv[head] < |nx| && ch != head
      modifies this`nx, this`pv, next, prev
      ensures TiedLinks()
      ensures nx == TailNext(old(nx), old(pv), ch, ct, head) && pv == TailPrev(old(pv), ch, ct, head)
    {
      prev[ch] := prev[head];
      next[prev[head]] := ch;
      prev[head] := ct;
      next[ct] := head;
      nx, pv := TailNext(nx, pv, ch, ct, head), TailPrev(pv, ch, ct, head);
    }

    method ListEmpty(head: int) returns (b: bool)
      requires TiedLinks() && 0 <= head < |nx|
      ensures b <==> nx[head] == head
    {
      b := next[head] == head;
    }

    // Links the last page of a chain with the first page of the chain after it.
    method Seam(last: int, first: int)
      requires TiedLinks() && 0 <= last < |nx| && 0 <= first < |pv|
      modifies this`nx, this`pv, next, prev
      ensures TiedLinks() && nx == old(nx)[last := first] && pv == old(pv)[first := last]
    {
      next[last] := first;
      prev[first] := last;
      nx, pv := nx[last := first], pv[first := last];
    }

    method SetOrder(pg: int, k: int)
      requires Tied() && Shape(pool) && 0 <= pg < n
      modifies this`pool, order
      ensures Tied() && pool == old(pool).(order := old(pool).order[pg := k])
    {
      order[pg] := k;
      pool := pool.(order := pool.order[pg := k]);
    }

    method SetBusy(pg: int, b: bool)
      requires Tied() && Shape(pool) && 0 <= pg < n
      modifies this`pool, busy
      ensures Tied() && pool == old(pool).(busy := old(pool).busy[pg := b])
    {
      busy[pg] := b;
      pool := pool.(busy := pool.busy[pg := b]);
    }

    // ---------- allocation ----------

    // The first list from k on that is not empty, ORDER_NUM if all are.
    method FindList(k: nat) returns (q: nat)
      requires Valid()
      ensures q == if k <= MAX_ORDER then FirstOrder(pool.free, k) else ORDER_NUM
    {
      q := k;
      while q < ORDER_NUM
        invariant k <= ORDER_NUM ==> q <= ORDER_NUM && FirstOrder(pool.free, k) == FirstOrder(pool.free, q)
        invariant k > ORDER_NUM ==> q == k
        decreases ORDER_NUM - q
      {
        EmptyList(pool, nx, pv, q);
        var empty := ListEmpty(n + q);
        if !empty {
          return;
        }
        q := q + 1;
      }
      q := ORDER_NUM;
    }

    // Unstrings the first block of list q.
    method TakeFirst(q: nat) returns (pg: int)
      requires Valid() && q < ORDER_NUM && pool.free[q] != []
      modifies this`pool, this`nx, this`pv, next, prev
      ensures Tied() && pg == old(pool).free[q][0] && pool == PopFront(old(pool), q)
      ensures Linked(pool, nx, pv) && BusyEndsKept(old(pool), old(nx), nx)
    {
      EmptyList(pool, nx, pv, q);
      pg := next[n + q];
      var tlst := BuddyEnd(pg, q);
      PopLinked(pool, q, pg, tlst, nx, pv);
      hide Inv, Linked, BusyEndsKept;
      prev[next[tlst]] := n + q;
      next[n + q] := next[tlst];
      nx, pv := nx[n + q := nx[tlst]], pv[nx[tlst] := n + q];
      pool := PopFront(pool, q);
    }

    method GetPagesFromList(o: nat) returns (pg: int)
      requires Valid()
      modifies this`pool, this`nx, this`pv, order, busy, next, prev
      ensures Valid()
      ensures Get(old(pool), o).None? ==> pg == NULL && pool == old(pool) && nx == old(nx)
      ensures Get(old(pool), o).Some? ==> Get(old(pool), o) == Some((pool, pg))
      ensures BusyEndsKept(old(pool), old(nx), nx)
    {
      ghost var p, nx0 := pool, nx;
      var q := FindList(o);
      if q == ORDER_NUM {
        return NULL;
      }
      ghost var q', h := GetUnfold(p, o);
      GetInv(p, o);
      pg := TakeFirst(q);
      ghost var p1, nx1 := pool, nx;
      assert SameBusyOrders(p, p1) && |nx1| == |nx0|;
      hide Inv, Linked, Get, BusyEndsKept, SameBusyOrders;
      pg := SplitDown(pg, q, o);
      BusyEndsFollow(p, p1, nx0, nx1, nx);
    }

    // Splits the block pg of order q down to order o and returns the last part.
    method SplitDown(pg0: int, q: nat, o: nat) returns (pg: int)
      requires Tied() && Inv(pool, pg0) && Linked(pool, nx, pv)
      requires Head(pool.order, pg0) && pool.order[pg0] == q && o <= q
      requires q <= MAX_ORDER && pg0 + Pow2(q) <= n
      modifies this`pool, this`nx, this`pv, order, busy, next, prev
      ensures Tied() && Split(old(pool), pg0, q, o) == (pool, pg)
      ensures Linked(pool, nx, pv) && BusyEndsKept(old(pool), old(nx), nx)
    {
      hide Inv, Linked, Split, BusyEndsKept;
      ghost var cur;
      pg, cur := PutHalves(pg0, q, o);
      KeepLast(pg, o, cur);
    }

    // Puts one half after another on the lists until a block of order o is left; its
    // descriptor is still to be written.
    method PutHalves(pg0: int, q: nat, o: nat) returns (pg: int, ghost cur: Pool)
      requires Tied() && Inv(pool, pg0) && Linked(pool, nx, pv)
      requires Head(pool.order, pg0) && pool.order[pg0] == q && o <= q
      requires q <= MAX_ORDER && pg0 + Pow2(q) <= n
      modifies this`pool, this`nx, this`pv, order, next, prev
      ensures Tied() && Shape(cur) && Shape(pool) && 0 <= pg && pg + Pow2(o) <= n
      ensures cur == pool.(order := pool.order[pg := o]) && Linked(cur, nx, pv)
      ensures Split(cur, pg, o, o) == Split(old(pool), pg0, q, o)
      ensures BusyEndsKept(old(pool), old(nx), nx)
    {
      ghost var p0, nx0 := pool, nx;
      pg, cur := pg0, pool;
      var k := q - 1;
      hide Inv, Linked, Split, BusyEndsKept, SameBusyOrders;
      WholeBlock(pool, pg, nx);
      while k >= o
        invariant o - 1 <= k < q && Tied() && Shape(cur) && Shape(pool)
        invariant 0 <= pg && pg + Pow2(k + 1) <= n
        invariant cur == pool.(order := pool.order[pg := k + 1])
        invariant Inv(cur, pg) && Linked(cur, nx, pv)
        invariant Split(cur, pg, k + 1, o) == Split(p0, pg0, q, o)
        invariant BusyEndsKept(p0, nx0, nx) && SameBusyOrders(p0, cur) && |nx| == |nx0|
      {
        pg, cur := CutTurn(pg, k, o, cur, p0, nx0);
        k := k - 1;
      }
    }

    // Makes the block pg, all that is left of cur's pending block, busy.
    method KeepLast(pg: int, o: nat, ghost cur: Pool)
      requires Tied() && Shape(cur) && Head(cur.order, pg) && cur.order[pg] == o <= MAX_ORDER
      requires Shape(pool) && pg + Pow2(o) <= n && cur == pool.(order := pool.order[pg := o])
      requires Linked(cur, nx, pv)
      modifies this`pool, order, busy
      ensures Tied() && Shape(pool) && Split(cur, pg, o, o) == (pool, pg) && Linked(pool, nx, pv)
    {
      SetBusy(pg, true);
      SetOrder(pg, o);
      SplitEnd(cur, pool, pg, o);
      LinkedIgnoresFlags(cur, pool, nx, pv);
    }

    method CutTurn(pg: int, k: nat, o: nat, ghost cur: Pool, ghost p0: Pool, ghost nx0: seq<int>)
      returns (rest: int, ghost r: Pool)
      requires Tied() && Shape(cur) && Shape(pool) && 0 <= pg && pg + Pow2(k + 1) <= n && o <= k < MAX_ORDER
      requires cur == pool.(order := pool.order[pg := k + 1]) && Inv(cur, pg) && Linked(cur, nx, pv)
      requires Shape(p0) && BusyEndsKept(p0, nx0, nx) && SameBusyOrders(p0, cur) && |nx| == |nx0|
      modifies this`pool, this`nx, this`pv, order, next, prev
      ensures Tied() && Shape(pool) && Shape(r) && 0 <= rest && rest + Pow2(k) <= n && |nx| == |nx0| && |r.order| == n
      ensures r == pool.(order := pool.order[rest := k]) && Inv(r, rest) && Linked(r, nx, pv)
      ensures Split(r, rest, k, o) == Split(cur, pg, k + 1, o)
      ensures BusyEndsKept(p0, nx0, nx) && SameBusyOrders(p0, r)
    {
      ghost var nx1 := nx;
      r := SplitTurn(p0, cur, pg, k + 1, o);
      hide Inv, Linked, Split, SplitStep, BusyEndsKept, SameBusyOrders;
      rest := CutHalf(pg, k, cur);
      BusyEndsFollow(p0, r, nx0, nx1, nx);
    }

    // Puts the first half of the block pg of order k+1 on list k and returns the second.
    method CutHalf(pg: int, k: nat, ghost cur: Pool) returns (rest: int)
      requires Tied() && Shape(cur) && Shape(pool) && 0 <= pg && pg + Pow2(k + 1) <= n && k < MAX_ORDER
      requires cur == pool.(order := pool.order[pg := k + 1]) && Inv(cur, pg) && Linked(cur, nx, pv)
      modifies this`pool, this`nx, this`pv, order, next, prev
      ensures Tied() && rest == pg + Pow2(k) && Shape(pool)
      ensures SplitStep(cur, pg, k + 1) == pool.(order := pool.order[rest := k])
      ensures Linked(SplitStep(cur, pg, k + 1), nx, pv)
      ensures BusyEndsKept(SplitStep(cur, pg, k + 1), old(nx), nx)
    {
      var tlst1 := BuddyEnd(pg, k);
      SplitStepLinked(cur, pg, k + 1, tlst1, nx, pv);
      hide Inv, Linked, BusyEndsKept;
      var tlst := pg;
      rest := pg + Pow2(k);
      SetOrder(tlst, k);
      ListAddChainTail(tlst, tlst1, n + k);
      pool := pool.(free := pool.free[k := pool.free[k] + [tlst]]);
    }

    // ---------- freeing ----------

    predicate IsFree(t: int, k: nat)
      requires Wired()
      reads order, busy
    {
      0 <= t < n && !busy[t] && order[t] == k
    }

    // Takes the free block t after pg off list k and links its pages behind pg's.
    method JoinNext(pg: int, t: int, k: nat)
      requires Tied() && Inv(pool, pg) && Linked(pool, nx, pv)
      requires Neighbours(pool, pg, t, pg, k)
      modifies this`pool, this`nx, this`pv, order, next, prev
      ensures Tied() && t in old(pool).free[k] && 0 <= pg < t < n
      ensures pool == old(pool).(order := old(pool).order[pg := k + 1][t := -1],
                                 free := old(pool).free[k := Without(old(pool).free[k], t)])
      ensures Linked(pool, nx, pv) && BusyEndsKept(old(pool), old(nx), nx)
    {
      JoinLinked(pool, pg, t, pg, k, BuddyEnd(t, k), t, nx, pv);
      JoinApart(pool, pg, t, pg, k, nx, pv);
      assert Shape(pool);
      hide Inv, Linked, BusyEndsKept, Neighbours;
      SetOrder(pg, order[pg] + 1);
      SetOrder(t, -1);
      ListRemoveChain(t, BuddyEnd(t, k));
      Seam(BuddyEnd(pg, k), t);
      pool := pool.(free := pool.free[k := Without(pool.free[k], t)]);
    }

    // Takes the free block t before pg off list k and links pg's pages behind its own.
    method JoinPrev(pg: int, t: int, k: nat)
      requires Tied() && Inv(pool, pg) && Linked(pool, nx, pv)
      requires Neighbours(pool, pg, t, t, k)
      modifies this`pool, this`nx, this`pv, order, next, prev
      ensures Tied() && t in old(pool).free[k] && 0 <= t < pg < n
      ensures pool == old(pool).(order := old(pool).order[pg := -1][t := k + 1],
                                 free := old(pool).free[k := Without(old(pool).free[k], t)])
      ensures Linked(pool, nx, pv) && BusyEndsKept(old(pool), old(nx), nx)
    {
      JoinLinked(pool, pg, t, t, k, BuddyEnd(t, k), pg, nx, pv);
      JoinApart(pool, pg, t, t, k, nx, pv);
      assert Shape(pool) && pool.order[t := k + 1][pg := -1] == pool.order[pg := -1][t := k + 1];
      hide Inv, Linked, BusyEndsKept, Neighbours;
      SetOrder(pg, -1);
      ListRemoveChain(t, BuddyEnd(t, k));
      Seam(BuddyEnd(t, k), pg);
      SetOrder(t, order[t] + 1);
      pool := pool.(free := pool.free[k := Without(pool.free[k], t)]);
    }

    // Callers pass the order the block was allocated with.
    method PutPagesToList(pg: int, o: nat)
      requires Valid() && 0 <= pg < n && (pool.busy[pg] ==> pool.order[pg] == o)
      modifies this`pool, this`nx, this`pv, order, busy, next, prev
      ensures Valid()
      ensures pool == Put(old(pool), pg)
      ensures BusyEndsKept(pool, old(nx), nx)
    {
      if !busy[pg] {
        return;
      }
      ghost var p := pool;
      UnbusyInv(p, pg);
      LinkedIgnoresFlags(p, Unbusy(p, pg), nx, pv);
      assert Put(p, pg) == Merge(Unbusy(p, pg), pg, p.order[pg]);
      hide Inv, Linked, Put, Merge, BusyEndsKept;
      SetBusy(pg, false);
      MergeUp(pg, o);
    }

    // One turn of the merge loop; the page returned heads the block to go on with.
    method MergeOnce(pg: int, k: nat) returns (joined: bool, head: int)
      requires Tied() && Inv(pool, pg) && Linked(pool, nx, pv)
      requires Head(pool.order, pg) && pool.order[pg] == k < MAX_ORDER
      modifies this`pool, this`nx, this`pv, order, next, prev
      ensures Tied() && Shape(pool) && Linked(pool, nx, pv) && |nx| == |old(nx)|
      ensures joined ==>
        && Inv(pool, head) && Head(pool.order, head) && pool.order[head] == k + 1
        && Merge(pool, head, k + 1) == Merge(old(pool), pg, k)
      ensures !joined ==>
        && pool == old(pool) && nx == old(nx)
        && Merge(pool, pg, k) == pool.(free := pool.free[k := [pg] + pool.free[k]])
      ensures BusyEndsKept(old(pool), old(nx), nx) && SameBusyOrders(old(pool), pool)
    {
      ghost var p := pool;
      var tnext := pg + Pow2(k);
      var tprev := pg - Pow2(k);
      SameBusyRefl(p, nx);
      hide SameBusyOrders, Inv, Linked, BusyEndsKept, Merge, Neighbours;
      if IsFree(tnext, k) {
        joined, head := true, pg;
        MergeNextTurn(p, pg, k);
        JoinKeepsBusy(p, pg, tnext, pg, k, p.free[k := Without(p.free[k], tnext)]);
        JoinNext(pg, tnext, k);
      } else if IsFree(tprev, k) {
        joined, head := true, tprev;
        MergePrevTurn(p, pg, k);
        JoinKeepsBusy(p, pg, tprev, tprev, k, p.free[k := Without(p.free[k], tprev)]);
        JoinPrev(pg, tprev, k);
      } else {
        joined, head := false, pg;
        MergeNoTurn(p, pg, k);
      }
    }

    // Merges the block pg0 upwards and strings the result on its list.
    method MergeUp(pg0: int, o: nat)
      requires Tied() && Inv(pool, pg0) && Linked(pool, nx, pv) && Head(pool.order, pg0) && pool.order[pg0] == o
      modifies this`pool, this`nx, this`pv, order, next, prev
      ensures Valid() && pool == Merge(old(pool), pg0, o)
      ensures BusyEndsKept(pool, old(nx), nx)
    {
      ghost var nx0, result := nx, Merge(pool, pg0, o);
      var pg, k := pg0, o;
      OrderBound(pool, pg);
      assert Shape(pool);
      hide Inv, Linked, BusyEndsKept, Merge, SameBusyOrders;
      while k < MAX_ORDER
        invariant Tied() && Shape(pool) && Inv(pool, pg) && Linked(pool, nx, pv) && |nx| == |nx0|
        invariant Head(pool.order, pg) && pool.order[pg] == k && k <= MAX_ORDER
        invariant Merge(pool, pg, k) == result && BusyEndsKept(pool, nx0, nx)
        decreases MAX_ORDER - k
      {
        ghost var p, nx1 := pool, nx;
        var joined, head := MergeOnce(pg, k);
        BusyEndsTrans(p, pool, nx0, nx1, nx);
        if !joined {
          break;
        }
        pg := head;
        k := k + 1;
      }
      if k == MAX_ORDER {
        MergeNoTurn(pool, pg, k);
      }
      StringFront(pg, k, nx0);
    }

    method StringFront(pg: int, k: nat, ghost nx0: seq<int>)
      requires Tied() && Inv(pool, pg) && Linked(pool, nx, pv) && BusyEndsKept(pool, nx0, nx) && |nx| == |nx0|
      requires Head(pool.order, pg) && pool.order[pg] == k <= MAX_ORDER
      modifies this`pool, this`nx, this`pv, next, prev
      ensures Valid() && pool == old(pool).(free := old(pool).free[k := [pg] + old(pool).free[k]])
      ensures BusyEndsKept(pool, nx0, nx)
    {
      ghost var p, nx1 := pool, nx;
      PushLinked(pool, pg, k, BuddyEnd(pg, k), nx, pv);
      PushFrontInv(pool, pg, k);
      assert SameBusyOrders(p, p.(free := p.free[k := [pg] + p.free[k]]));
      hide Inv, Linked, BusyEndsKept, SameBusyOrders;
      ListAddChain(pg, BuddyEnd(pg, order[pg]), n + order[pg]);
      pool := pool.(free := pool.free[k := [pg] + pool.free[k]]);
      BusyEndsTrans(p, pool, nx0, nx1, nx);
    }

    // ---------- allocation and freeing of pages ----------

    // Sets or clears PAGE_DIRTY on len pages from pg on.
    method MarkPages(pg: int, len: nat, value: bool)
      requires Tied() && Shape(pool) && 0 <= pg && pg + len <= n
      modifies this`pool, dirty
      ensures Tied() && Shape(pool) && pool == old(pool).(dirty := Mark(old(pool).dirty, pg, len, value))
    {
      var i := 0;
      while i < len
        invariant i <= len && TiedLinks() && pool == old(pool)
        invariant pool.order == order[..] && pool.busy == busy[..]
        invariant forall j | 0 <= j < n :: dirty[j] == if pg <= j < pg + i then value else old(pool).dirty[j]
      {
        dirty[pg + i] := value;
        i := i + 1;
      }
      pool := pool.(dirty := Mark(pool.dirty, pg, len, value));
      assert pool.dirty == dirty[..];
    }

    method AllocPages(o: nat) returns (pg: int)
      requires Valid()
      modifies this`pool, this`nx, this`pv, order, busy, dirty, next, prev
      ensures Valid()
      ensures BuddySpec.AllocPages(old(pool), o).None? ==> pg == NULL && pool == old(pool) && nx == old(nx)
      ensures BuddySpec.AllocPages(old(pool), o).Some? ==> BuddySpec.AllocPages(old(pool), o) == Some((pool, pg))
      ensures BusyEndsKept(old(pool), old(nx), nx)
    {
      ghost var p := pool;
      GetInv(p, o);
      hide Inv, Linked, Get, BusyEndsKept;
      pg := GetPagesFromList(o);
      if pg == NULL {
        return;
      }
      ghost var d := Mark(pool.dirty, pg, Pow2(o), true);
      MarkedSound(pool, d, nx, pv);
      ShapeOf(pool);
      MarkPages(pg, Pow2(o), true);
    }

    // Writes the next link of the last page of a busy block, which no list uses.
    method SetEndNext(end: int, v: int, ghost b: int)
      requires Valid() && Live(pool, b) && end == BuddyEnd(b, pool.order[b])
      modifies this`nx, next
      ensures Valid() && pool == old(pool)
      ensures 0 <= end < |old(nx)| && nx == old(nx)[end := v]
    {
      BusyEndWrite(pool, b, v, nx, pv);
      hide Inv, Linked;
      next[end] := v;
      nx := nx[end := v];
    }

    method FreePages(pg: int, o: nat)
      requires Valid() && Live(pool, pg) && pool.order[pg] == o
      modifies this`pool, this`nx, this`pv, order, busy, dirty, next, prev
      ensures Valid() && pool == BuddySpec.FreePages(old(pool), pg)
      ensures BusyEndsKept(pool, old(nx), nx)
    {
      BlockInside(pool, pg);
      MarkedSound(pool, Mark(pool.dirty, pg, Pow2(o), false), nx, pv);
      ShapeOf(pool);
      hide Inv, Linked, Put, BusyEndsKept;
      MarkPages(pg, Pow2(o), false);
      PutPagesToList(pg, o);
    }
  }

  lemma BusyEndWrite(p: Pool, b: int, v: int, nx: seq<int>, pv: seq<int>)
    requires Inv(p, -1) && Linked(p, nx, pv) && Live(p, b)
    ensures b + Pow2(p.order[b]) <= |p.order| && |nx| == |p.order| + ORDER_NUM
    ensures Linked(p, nx[b + Pow2(p.order[b]) - 1 := v], pv)
  {
    BlockInside(p, b);
    var e := b + Pow2(p.order[b]) - 1;
    var nx2 := nx[e := v];
    assert Inner(p.order, nx2, pv) by {
      assert BlockAt(p.order, b);
    }
    forall k | 0 <= k < ORDER_NUM
      ensures RingAt(p, nx2, pv, k)
    {
      BusyEndOffRing(p, b, k);
      assert RingAt(p, nx, pv, k);
      hide Inv, Linked;
      RingFrame(nx, pv, nx2, pv, p.free[k], |p.order| + k, Pow2(k));
    }
  }

  lemma BusyEndOffRing(p: Pool, b: int, k: nat)
    requires Inv(p, -1) && Live(p, b) && k < ORDER_NUM
    ensures forall i | 0 <= i < |p.free[k]| ::
      && 0 <= p.free[k][i] && p.free[k][i] + Pow2(k) <= |p.order|
      && p.free[k][i] + Pow2(k) != b + Pow2(p.order[b])
  {
    FreeProper(p, -1, k);
    forall i | 0 <= i < |p.free[k]|
      ensures p.free[k][i] + Pow2(k) != b + Pow2(p.order[b])
    {
      var g := p.free[k][i];
      if g < b { Apart(p.order, g, b); } else { Apart(p.order, b, g); }
    }
  }

  lemma ShapeOf(p: Pool)
    requires Inv(p, -1)
    ensures Shape(p)
  {
  }

  lemma BlockInside(p: Pool, h: int)
    requires Inv(p, -1) && Head(p.order, h)
    ensures h + Pow2(p.order[h]) <= |p.order|
  {
    assert BlockAt(p.order, h);
  }

  lemma EmptyList(p: Pool, nx: seq<int>, pv: seq<int>, k: nat)
    requires Inv(p, -1) && Linked(p, nx, pv) && k < ORDER_NUM
    ensures nx[|p.order| + k] == |p.order| + k <==> p.free[k] == []
    ensures p.free[k] != [] ==> nx[|p.order| + k] == p.free[k][0]
  {
    assert RingAt(p, nx, pv, k);
    FreeProper(p, -1, k);
    assert nx[EndNode(p.free[k], |p.order| + k, Pow2(k), 0)] == StartNode(p.free[k], |p.order| + k, 0);
  }

  lemma MarkedSound(p: Pool, d: seq<bool>, nx: seq<int>, pv: seq<int>)
    requires Inv(p, -1) && Linked(p, nx, pv) && |d| == |p.order|
    ensures Inv(p.(dirty := d), -1) && Linked(p.(dirty := d), nx, pv)
  {
    DirtyIrrelevant(p, d);
    assert Shape(p);
    hide Inv;
    LinkedIgnoresFlags(p, p.(dirty := d), nx, pv);
  }

  lemma WholeBlock(p: Pool, h: int, nx: seq<int>)
    requires Inv(p, h) && Head(p.order, h)
    ensures Shape(p) && p == p.(order := p.order[h := p.order[h]])
    ensures SameBusyOrders(p, p) && BusyEndsKept(p, nx, nx)
  {
    assert p.order == p.order[h := p.order[h]];
  }

  lemma SameBusyRefl(p: Pool, nx: seq<int>)
    requires Shape(p)
    ensures SameBusyOrders(p, p) && BusyEndsKept(p, nx, nx)
  {
  }

  lemma JoinKeepsBusy(p: Pool, h: int, t: int, lo: int, k: nat, free: seq<seq<int>>)
    requires Inv(p, h) && Head(p.order, h) && p.order[h] == k < MAX_ORDER && FreeHead(p, t, k)
    requires (lo == h && t == h + Pow2(k)) || (lo == t && t == h - Pow2(k))
    requires |free| == ORDER_NUM
    ensures Neighbours(p, h, t, lo, k)
    ensures SameBusyOrders(p, p.(order := p.order[h := k + 1][t := -1], free := free))
    ensures SameBusyOrders(p, p.(order := p.order[h := -1][t := k + 1], free := free))
  {
  }

  // Busy blocks of p are still heads of the same order in r.
  ghost predicate SameBusyOrders(p: Pool, r: Pool)
    requires Shape(p)
  {
    Shape(r) && |r.order| == |p.order| && r.busy == p.busy &&
    forall b | 0 <= b < |p.order| && p.busy[b] :: r.order[b] == p.order[b]
  }

  lemma SplitTurn(p0: Pool, cur: Pool, pg: int, q: nat, o: nat) returns (r: Pool)
    requires Shape(p0) && SameBusyOrders(p0, cur) && Inv(cur, pg) && Head(cur.order, pg) && cur.order[pg] == q
    requires o < q <= MAX_ORDER && pg + Pow2(q) <= |cur.order|
    ensures r == SplitStep(cur, pg, q) && Inv(r, pg + Pow2(q - 1)) && Head(r.order, pg + Pow2(q - 1))
    ensures r.order[pg + Pow2(q - 1)] == q - 1 && r.busy == cur.busy
    ensures SameBusyOrders(p0, r) && Split(cur, pg, q, o) == Split(r, pg + Pow2(q - 1), q - 1, o)
  {
    r := SplitStep(cur, pg, q);
    SplitStepInv(cur, pg, q);
    SplitStepBusy(p0, cur, pg, q);
    hide Inv, SameBusyOrders;
  }

  lemma SplitEnd(cur: Pool, r: Pool, pg: int, o: nat)
    requires Shape(cur) && Head(cur.order, pg) && cur.order[pg] == o <= MAX_ORDER && pg + Pow2(o) <= |cur.order|
    requires r == cur.(order := r.order, busy := r.busy) && |r.order| == |cur.order| && |r.busy| == |cur.busy|
    requires r.order[pg] == o && forall i | 0 <= i < |r.order| && i != pg :: r.order[i] == cur.order[i]
    requires r.busy[pg] && forall i | 0 <= i < |r.busy| && i != pg :: r.busy[i] == cur.busy[i]
    ensures Split(cur, pg, o, o) == (r, pg) && r.order == cur.order
  {
    assert r.order == cur.order[pg := o] && r.busy == cur.busy[pg := true];
  }

  lemma SplitStepBusy(p0: Pool, cur: Pool, pg: int, q: nat)
    requires Shape(p0) && SameBusyOrders(p0, cur) && Inv(cur, pg) && Head(cur.order, pg) && cur.order[pg] == q > 0
    requires q <= MAX_ORDER && pg + Pow2(q) <= |cur.order|
    ensures SameBusyOrders(p0, SplitStep(cur, pg, q))
  {
    assert cur.order[pg + Pow2(q - 1)] == -1 by { assert BlockAt(cur.order, pg); }
  }

  lemma BusyEndsFollow(p0: Pool, r: Pool, nx0: seq<int>, nx: seq<int>, nx2: seq<int>)
    requires Shape(p0) && SameBusyOrders(p0, r) && |nx0| == |nx| == |nx2|
    requires BusyEndsKept(p0, nx0, nx) && BusyEndsKept(r, nx, nx2)
    ensures BusyEndsKept(p0, nx0, nx2)
  {
    forall b | Live(p0, b) && b + Pow2(p0.order[b]) <= |nx0|
      ensures nx2[b + Pow2(p0.order[b]) - 1] == nx0[b + Pow2(p0.order[b]) - 1]
    {
      assert Live(r, b);
    }
  }

  lemma LinkedIgnoresFlags(p: Pool, r: Pool, nx: seq<int>, pv: seq<int>)
    requires Shape(p) && Shape(r) && Linked(p, nx, pv) && r.order == p.order && r.free == p.free
    ensures Linked(r, nx, pv)
  {
    assert forall k | 0 <= k < ORDER_NUM :: RingAt(r, nx, pv, k) == RingAt(p, nx, pv, k);
  }

  lemma JoinApart(p: Pool, pg: int, t: int, lo: int, k: nat, nx: seq<int>, pv: seq<int>)
    requires Inv(p, pg) && Linked(p, nx, pv) && Neighbours(p, pg, t, lo, k)
    ensures 0 <= t < |pv| && pv[t] != t + Pow2(k) - 1
  {
    NeighbourFacts(p, pg, t, lo, k);
    var s := p.free[k];
    assert RingAt(p, nx, pv, k);
    RingRemove(nx, pv, s, |p.order| + k, Pow2(k), IndexOf(s, t));
  }

  lemma OrderBound(p: Pool, h: int)
    requires Inv(p, h) && Head(p.order, h)
    ensures p.order[h] <= MAX_ORDER
  {
    assert BlockAt(p.order, h);
  }

  lemma BusyEndsTrans(p: Pool, r: Pool, nx0: seq<int>, nx: seq<int>, nx2: seq<int>)
    requires Shape(p) && SameBusyOrders(p, r) && |nx0| == |nx| == |nx2|
    requires BusyEndsKept(p, nx0, nx) && BusyEndsKept(p, nx, nx2)
    ensures BusyEndsKept(r, nx0, nx2)
  {
    forall b | Live(r, b) && b + Pow2(r.order[b]) <= |nx0|
      ensures nx2[b + Pow2(r.order[b]) - 1] == nx0[b + Pow2(r.order[b]) - 1]
    {
      assert Live(p, b);
    }
  }
}
