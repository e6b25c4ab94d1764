// The links threaded through the page descriptors. Node i < n is page i, node n + k is
// the list head page_buddy[k]; nx and pv are every node's next and prev.
module BuddyLinks {
  import opened Powers
  import opened BuddySpec

  // ---------- one circular list of blocks of w pages ----------

  function StartNode(s: seq<int>, root: int, j: int): int
    requires 0 <= j <= |s|
  {
    if j < |s| then s[j] else root
  }

  function EndNode(s: seq<int>, root: int, w: nat, j: int): int
    requires 0 <= j <= |s|
  {
    if j == 0 then root else s[j - 1] + w - 1
  }

  // Going round from the root, the end of each block and the start of the following one
  // point at each other.
  ghost predicate Ring(nx: seq<int>, pv: seq<int>, s: seq<int>, root: int, w: nat) {
    && |nx| == |pv|
    && forall j | 0 <= j <= |s| ::
         && 0 <= StartNode(s, root, j) < |nx| && 0 <= EndNode(s, root, w, j) < |nx|
         && nx[EndNode(s, root, w, j)] == StartNode(s, root, j)
         && pv[StartNode(s, root, j)] == EndNode(s, root, w, j)
  }

  ghost predicate Proper(s: seq<int>, root: int, w: nat) {
    w > 0 && NoDup(s) && forall i | 0 <= i < |s| :: 0 <= s[i] && s[i] + w <= root
  }

  // list_remove_chain
  function RemoveNext(nx: seq<int>, pv: seq<int>, ch: int, ct: int): seq<int>
    requires |nx| == |pv| && 0 <= ch < |pv| && 0 <= ct < |nx| && 0 <= pv[ch] < |nx|
  {
    nx[pv[ch] := nx[ct]]
  }

  function RemovePrev(nx: seq<int>, pv: seq<int>, ch: int, ct: int): seq<int>
    requires |nx| == |pv| && 0 <= ch < |pv| && 0 <= ct < |nx| && 0 <= nx[ct] < |pv|
  {
    pv[nx[ct] := pv[ch]]
  }

  lemma RingRemove(nx: seq<int>, pv: seq<int>, s: seq<int>, root: int, w: nat, j: nat)
    requires Ring(nx, pv, s, root, w) && Proper(s, root, w) && j < |s|
    ensures 0 <= s[j] && s[j] + w <= root < |nx|
    ensures pv[s[j]] == EndNode(s, root, w, j) && nx[s[j] + w - 1] == StartNode(s, root, j + 1)
    ensures 0 <= pv[s[j]] < |nx| && 0 <= nx[s[j] + w - 1] < |pv|
    ensures Ring(RemoveNext(nx, pv, s[j], s[j] + w - 1), RemovePrev(nx, pv, s[j], s[j] + w - 1),
                 RemoveAt(s, j), root, w)
  {
    assert StartNode(s, root, j) == s[j] && EndNode(s, root, w, j + 1) == s[j] + w - 1;
    assert StartNode(s, root, |s|) == root;
    var r := RemoveAt(s, j);
    var nx2 := RemoveNext(nx, pv, s[j], s[j] + w - 1);
    var pv2 := RemovePrev(nx, pv, s[j], s[j] + w - 1);
    forall i | 0 <= i <= |r|
      ensures 0 <= StartNode(r, root, i) < |nx2| && 0 <= EndNode(r, root, w, i) < |nx2|
      ensures nx2[EndNode(r, root, w, i)] == StartNode(r, root, i)
      ensures pv2[StartNode(r, root, i)] == EndNode(r, root, w, i)
    {
      if i < j {
        assert StartNode(r, root, i) == StartNode(s, root, i) && EndNode(r, root, w, i) == EndNode(s, root, w, i);
      } else if i == j {
        assert StartNode(r, root, i) == StartNode(s, root, i + 1) && EndNode(r, root, w, i) == EndNode(s, root, w, i);
      } else {
        assert StartNode(r, root, i) == StartNode(s, root, i + 1);
        assert EndNode(r, root, w, i) == EndNode(s, root, w, i + 1);
      }
    }
  }

  // list_add_chain
  function AddNext(nx: seq<int>, ch: int, ct: int, root: int): seq<int>
    requires 0 <= ct < |nx| && 0 <= root < |nx|
  {
    nx[ct := nx[root]][root := ch]
  }

  function AddPrev(nx: seq<int>, pv: seq<int>, ch: int, ct: int, root: int): seq<int>
    requires |nx| == |pv| && 0 <= ch < |pv| && 0 <= root < |nx| && 0 <= nx[root] < |pv|
  {
    pv[ch := root][nx[root] := ct]
  }

  lemma RingAdd(nx: seq<int>, pv: seq<int>, s: seq<int>, root: int, w: nat, h: int)
    requires Ring(nx, pv, s, root, w) && Proper([h] + s, root, w) && 0 <= h && h + w <= root < |nx|
    ensures 0 <= root < |nx| && nx[root] == StartNode(s, root, 0) && 0 <= nx[root] < |nx|
    ensures Ring(AddNext(nx, h, h + w - 1, root), AddPrev(nx, pv, h, h + w - 1, root), [h] + s, root, w)
  {
    assert EndNode(s, root, w, 0) == root;
    var r := [h] + s;
    assert nx[root] == StartNode(s, root, 0) && 0 <= nx[root] < |nx|;
    var nx2 := AddNext(nx, h, h + w - 1, root);
    var pv2 := AddPrev(nx, pv, h, h + w - 1, root);
    assert r[0] == h && (|s| > 0 ==> r[1] == s[0] && r[1] != r[0]);
    forall i | 0 <= i <= |r|
      ensures 0 <= StartNode(r, root, i) < |nx2| && 0 <= EndNode(r, root, w, i) < |nx2|
      ensures nx2[EndNode(r, root, w, i)] == StartNode(r, root, i)
      ensures pv2[StartNode(r, root, i)] == EndNode(r, root, w, i)
    {
      if i > 0 {
        RingAddAt(nx, pv, s, root, w, h, i - 1);
      }
    }
  }

  lemma RingAddAt(nx: seq<int>, pv: seq<int>, s: seq<int>, root: int, w: nat, h: int, j: nat)
    requires Ring(nx, pv, s, root, w) && Proper([h] + s, root, w) && 0 <= h && h + w <= root < |nx| && j <= |s|
    requires nx[root] == StartNode(s, root, 0) && 0 <= nx[root] < |nx|
    ensures var r := [h] + s;
      && 0 <= StartNode(r, root, j + 1) < |nx| && 0 <= EndNode(r, root, w, j + 1) < |nx|
      && AddNext(nx, h, h + w - 1, root)[EndNode(r, root, w, j + 1)] == StartNode(r, root, j + 1)
      && AddPrev(nx, pv, h, h + w - 1, root)[StartNode(r, root, j + 1)] == EndNode(r, root, w, j + 1)
  {
    var r := [h] + s;
    assert StartNode(r, root, j + 1) == StartNode(s, root, j);
    assert nx[EndNode(s, root, w, j)] == StartNode(s, root, j);
    if j > 0 {
      assert r[j] == s[j - 1] && r[0] == h;
      assert EndNode(r, root, w, j + 1) == EndNode(s, root, w, j);
      assert j < |s| ==> r[j + 1] == s[j] && s[j] != s[0];
    }
    hide Ring;
  }

  // list_add_chain_tail
  function TailNext(nx: seq<int>, pv: seq<int>, ch: int, ct: int, root: int): seq<int>
    requires |nx| == |pv| && 0 <= ct < |nx| && 0 <= root < |nx| && 0 <= pv[root] < |nx|
  {
    nx[pv[root] := ch][ct := root]
  }

  function TailPrev(pv: seq<int>, ch: int, ct: int, root: int): seq<int>
    requires 0 <= ch < |pv| && 0 <= root < |pv|
  {
    pv[ch := pv[root]][root := ct]
  }

  lemma RingAddTail(nx: seq<int>, pv: seq<int>, s: seq<int>, root: int, w: nat, h: int)
    requires Ring(nx, pv, s, root, w) && Proper(s + [h], root, w) && 0 <= h && h + w <= root < |nx|
    ensures 0 <= root < |nx| && pv[root] == EndNode(s, root, w, |s|) && 0 <= pv[root] < |nx|
    ensures Ring(TailNext(nx, pv, h, h + w - 1, root), TailPrev(pv, h, h + w - 1, root), s + [h], root, w)
  {
    assert StartNode(s, root, |s|) == root;
    var r := s + [h];
    assert r[|s|] == h;
    assert forall i | 0 <= i < |s| :: r[i] == s[i];
    var nx2 := TailNext(nx, pv, h, h + w - 1, root);
    var pv2 := TailPrev(pv, h, h + w - 1, root);
    forall i | 0 <= i <= |r|
      ensures 0 <= StartNode(r, root, i) < |nx2| && 0 <= EndNode(r, root, w, i) < |nx2|
      ensures nx2[EndNode(r, root, w, i)] == StartNode(r, root, i)
      ensures pv2[StartNode(r, root, i)] == EndNode(r, root, w, i)
    {
      if i <= |s| {
        assert EndNode(r, root, w, i) == EndNode(s, root, w, i);
        if i < |s| { assert StartNode(r, root, i) == StartNode(s, root, i); }
      }
    }
  }

  lemma RingFrame(nx: seq<int>, pv: seq<int>, nx2: seq<int>, pv2: seq<int>, s: seq<int>, root: int, w: nat)
    requires Ring(nx, pv, s, root, w) && |nx2| == |pv2| == |nx|
    requires 0 <= root < |nx| && nx2[root] == nx[root] && pv2[root] == pv[root]
    requires w > 0 && forall i | 0 <= i < |s| :: 0 <= s[i] && s[i] + w <= root
    requires forall i | 0 <= i < |s| :: nx2[s[i] + w - 1] == nx[s[i] + w - 1] && pv2[s[i]] == pv[s[i]]
    ensures Ring(nx2, pv2, s, root, w)
  {
    forall j | 0 <= j <= |s|
      ensures 0 <= StartNode(s, root, j) < |nx| && 0 <= EndNode(s, root, w, j) < |nx|
      ensures nx2[EndNode(s, root, w, j)] == StartNode(s, root, j)
      ensures pv2[StartNode(s, root, j)] == EndNode(s, root, w, j)
    {
      assert nx[EndNode(s, root, w, j)] == StartNode(s, root, j);
    }
  }

  // ---------- all nine lists, and the links inside blocks ----------

  // A page that is not a head is linked both ways with the page before it.
  ghost predicate Inner(order: seq<int>, nx: seq<int>, pv: seq<int>) {
    && |order| <= |nx| && |nx| == |pv|
    && forall i | 0 < i < |order| && order[i] < 0 :: pv[i] == i - 1 && nx[i - 1] == i
  }

  ghost predicate RingAt(p: Pool, nx: seq<int>, pv: seq<int>, k: int)
    requires Shape(p) && 0 <= k < ORDER_NUM
  {
    Ring(nx, pv, p.free[k], |p.order| + k, Pow2(k))
  }

  ghost predicate Linked(p: Pool, nx: seq<int>, pv: seq<int>)
    requires Shape(p)
  {
    && |nx| == |pv| == |p.order| + ORDER_NUM
    && Inner(p.order, nx, pv)
    && forall k | 0 <= k < ORDER_NUM :: RingAt(p, nx, pv, k)
  }

  lemma FreeProper(p: Pool, pending: int, k: nat)
    requires Inv(p, pending) && k < ORDER_NUM
    ensures Proper(p.free[k], |p.order| + k, Pow2(k))
    ensures forall i | 0 <= i < |p.free[k]| ::
      FreeHead(p, p.free[k][i], k) && p.free[k][i] != pending && p.free[k][i] + Pow2(k) <= |p.order|
  {
    forall i | 0 <= i < |p.free[k]|
      ensures 0 <= p.free[k][i] && p.free[k][i] + Pow2(k) <= |p.order|
      ensures FreeHead(p, p.free[k][i], k) && p.free[k][i] != pending
    {
      var h := p.free[k][i];
      assert h in p.free[k];
      assert FreeHead(p, h, k) && Head(p.order, h);
      assert BlockAt(p.order, h);
    }
  }

  // The nodes that an edit of list k may touch: its root, and the first and last pages
  // of free blocks of order k and of the pending block.
  ghost predicate Mine(p: Pool, pending: int, k: nat, g: int)
    requires Shape(p)
  {
    Head(p.order, g) && !p.busy[g] && (p.order[g] == k || g == pending)
  }

  ghost predicate StartOf(p: Pool, pending: int, k: nat, e: int)
    requires Shape(p)
  {
    e == |p.order| + k || Mine(p, pending, k, e)
  }

  ghost predicate EndOf(p: Pool, pending: int, k: nat, e: int)
    requires Shape(p)
  {
    e == |p.order| + k || exists g :: Mine(p, pending, k, g) && e == g + Pow2(p.order[g]) - 1
  }

  ghost predicate EditsOnly(p: Pool, pending: int, k: nat, nx: seq<int>, pv: seq<int>, nx2: seq<int>, pv2: seq<int>)
    requires Shape(p)
  {
    && |nx| == |pv| == |nx2| == |pv2| == |p.order| + ORDER_NUM
    && (forall e | 0 <= e < |nx| && nx2[e] != nx[e] :: EndOf(p, pending, k, e))
    && (forall e | 0 <= e < |pv| && pv2[e] != pv[e] :: StartOf(p, pending, k, e))
  }

  lemma NotMine(p: Pool, pending: int, k: nat, b: int)
    requires Inv(p, pending) && Head(p.order, b) && !Mine(p, pending, k, b)
    ensures b + Pow2(p.order[b]) <= |p.order|
    ensures !StartOf(p, pending, k, b) && !EndOf(p, pending, k, b + Pow2(p.order[b]) - 1)
  {
    assert BlockAt(p.order, b);
    forall g | Mine(p, pending, k, g)
      ensures g + Pow2(p.order[g]) != b + Pow2(p.order[b])
    {
      if g < b { Apart(p.order, g, b); } else { Apart(p.order, b, g); }
    }
  }

  // Editing list k disturbs no other list, no link inside a block, and not the next
  // link that a busy block keeps in its last page.
  lemma OtherRing(p: Pool, pending: int, k: nat, j: nat,
                  nx: seq<int>, pv: seq<int>, nx2: seq<int>, pv2: seq<int>)
    requires Inv(p, pending) && j < ORDER_NUM && j != k
    requires EditsOnly(p, pending, k, nx, pv, nx2, pv2) && RingAt(p, nx, pv, j)
    ensures RingAt(p, nx2, pv2, j)
  {
    var s, root, w := p.free[j], |p.order| + j, Pow2(j);
    FreeProper(p, pending, j);
    forall i | 0 <= i < |s|
      ensures nx2[s[i] + w - 1] == nx[s[i] + w - 1] && pv2[s[i]] == pv[s[i]]
    {
      NotMine(p, pending, k, s[i]);
    }
    assert !StartOf(p, pending, k, root) && !EndOf(p, pending, k, root) by {
      forall g | Mine(p, pending, k, g)
        ensures g + Pow2(p.order[g]) - 1 != root
      {
        assert BlockAt(p.order, g);
      }
    }
    RingFrame(nx, pv, nx2, pv2, s, root, w);
  }

  lemma InnerKept(p: Pool, pending: int, k: nat, nx: seq<int>, pv: seq<int>, nx2: seq<int>, pv2: seq<int>)
    requires Inv(p, pending) && EditsOnly(p, pending, k, nx, pv, nx2, pv2) && Inner(p.order, nx, pv)
    ensures Inner(p.order, nx2, pv2)
  {
    forall i | 0 < i < |p.order| && p.order[i] < 0
      ensures pv2[i] == i - 1 && nx2[i - 1] == i
    {
      assert !StartOf(p, pending, k, i);
      forall g | Mine(p, pending, k, g)
        ensures g + Pow2(p.order[g]) != i
      {
        assert BlockAt(p.order, g);
      }
      assert !EndOf(p, pending, k, i - 1);
    }
  }

  // The next link in the last page of every busy block is the same in both.
  ghost predicate BusyEndsKept(p: Pool, nx: seq<int>, nx2: seq<int>)
    requires Shape(p)
  {
    |nx| == |nx2| &&
    forall b {:trigger Live(p, b)} | Live(p, b) && b + Pow2(p.order[b]) <= |nx| ::
      nx2[b + Pow2(p.order[b]) - 1] == nx[b + Pow2(p.order[b]) - 1]
  }

  lemma BusyEnds(p: Pool, pending: int, k: nat, nx: seq<int>, pv: seq<int>, nx2: seq<int>, pv2: seq<int>)
    requires Inv(p, pending) && EditsOnly(p, pending, k, nx, pv, nx2, pv2)
    ensures BusyEndsKept(p, nx, nx2)
  {
    forall b | Live(p, b)
      ensures b + Pow2(p.order[b]) <= |nx| && nx2[b + Pow2(p.order[b]) - 1] == nx[b + Pow2(p.order[b]) - 1]
    {
      NotMine(p, pending, k, b);
    }
  }

  ghost predicate OthersLinked(p: Pool, k: nat, nx: seq<int>, pv: seq<int>)
    requires Shape(p)
  {
    && |nx| == |pv| == |p.order| + ORDER_NUM
    && Inner(p.order, nx, pv)
    && forall j | 0 <= j < ORDER_NUM && j != k :: RingAt(p, nx, pv, j)
  }

  // Together: an edit confined to list k that leaves list k a ring leaves all links sound.
  lemma EditLinked(p: Pool, pending: int, k: nat, s: seq<int>,
                   nx: seq<int>, pv: seq<int>, nx2: seq<int>, pv2: seq<int>)
    requires Inv(p, pending) && k < ORDER_NUM && Shape(p)
    requires OthersLinked(p, k, nx, pv)
    requires EditsOnly(p, pending, k, nx, pv, nx2, pv2)
    requires Ring(nx2, pv2, s, |p.order| + k, Pow2(k))
    ensures Linked(p.(free := p.free[k := s]), nx2, pv2)
    ensures BusyEndsKept(p, nx, nx2)
  {
    hide Inv, EditsOnly, BusyEndsKept, Inner, Ring;
    BusyEnds(p, pending, k, nx, pv, nx2, pv2);
    InnerKept(p, pending, k, nx, pv, nx2, pv2);
    var r := p.(free := p.free[k := s]);
    forall j | 0 <= j < ORDER_NUM
      ensures RingAt(r, nx2, pv2, j)
    {
      if j != k {
        OtherRing(p, pending, k, j, nx, pv, nx2, pv2);
      }
    }
  }

  lemma FourWrites(p: Pool, pending: int, k: nat, nx: seq<int>, pv: seq<int>,
                   e1: int, v1: int, e2: int, v2: int, s1: int, u1: int, s2: int, u2: int)
    requires Shape(p) && |nx| == |pv| == |p.order| + ORDER_NUM
    requires 0 <= e1 < |nx| && 0 <= e2 < |nx| && 0 <= s1 < |nx| && 0 <= s2 < |nx|
    requires EndOf(p, pending, k, e1) && EndOf(p, pending, k, e2)
    requires StartOf(p, pending, k, s1) && StartOf(p, pending, k, s2)
    ensures EditsOnly(p, pending, k, nx, pv, nx[e1 := v1][e2 := v2], pv[s1 := u1][s2 := u2])
  {
    hide EndOf, StartOf;
  }

  lemma LinkedAt(p: Pool, nx: seq<int>, pv: seq<int>, k: nat)
    requires Shape(p) && Linked(p, nx, pv) && k < ORDER_NUM
    ensures |nx| == |pv| == |p.order| + ORDER_NUM
    ensures Ring(nx, pv, p.free[k], |p.order| + k, Pow2(k)) && OthersLinked(p, k, nx, pv)
    ensures nx[|p.order| + k] == StartNode(p.free[k], |p.order| + k, 0)
  {
    assert RingAt(p, nx, pv, k);
    assert EndNode(p.free[k], |p.order| + k, Pow2(k), 0) == |p.order| + k;
  }

  lemma RootIsEnd(p: Pool, pending: int, k: nat)
    requires Shape(p)
    ensures EndOf(p, pending, k, |p.order| + k) && StartOf(p, pending, k, |p.order| + k)
  {
  }

  // ---------- the four edits ----------

  // Taking the first block h of list q off the list; e is its last page.
  lemma PopLinked(p: Pool, q: nat, h: int, e: int, nx: seq<int>, pv: seq<int>)
    requires Inv(p, -1) && Linked(p, nx, pv) && q < ORDER_NUM
    requires p.free[q] != [] && h == p.free[q][0] && e == h + Pow2(q) - 1
    ensures 0 <= h <= e < |p.order| && nx[|p.order| + q] == h && 0 <= nx[e] < |pv|
    ensures Linked(PopFront(p, q), nx[|p.order| + q := nx[e]], pv[nx[e] := |p.order| + q])
    ensures BusyEndsKept(p, nx, nx[|p.order| + q := nx[e]])
  {
    hide Inv, Linked, OthersLinked, StartOf, EndOf, RingAt, Ring, Proper, BusyEndsKept, EditsOnly;
    PopMine(p, q);
    var s, root, w := p.free[q], |p.order| + q, Pow2(q);
    LinkedAt(p, nx, pv, q);
    RingRemove(nx, pv, s, root, w, 0);
    assert StartNode(s, root, 0) == s[0];
    var nx2, pv2 := nx[root := nx[e]], pv[nx[e] := root];
    assert nx2 == RemoveNext(nx, pv, h, e) && pv2 == RemovePrev(nx, pv, h, e);
    assert RemoveAt(s, 0) == s[1..];
    RootIsEnd(p, -1, q);
    assert nx2 == nx[root := nx[e]][root := nx[e]] && pv2 == pv[nx[e] := root][nx[e] := root];
    FourWrites(p, -1, q, nx, pv, root, nx[e], root, nx[e], nx[e], root, nx[e], root);
    EditLinked(p, -1, q, s[1..], nx, pv, nx2, pv2);
  }

  lemma PopMine(p: Pool, q: nat)
    requires Inv(p, -1) && q < ORDER_NUM && p.free[q] != []
    ensures Shape(p) && 0 <= p.free[q][0] && p.free[q][0] + Pow2(q) <= |p.order|
    ensures Proper(p.free[q], |p.order| + q, Pow2(q))
    ensures StartOf(p, -1, q, StartNode(p.free[q], |p.order| + q, 1))
  {
    FreeProper(p, -1, q);
    if |p.free[q]| > 1 { assert FreeHead(p, p.free[q][1], q); }
  }

  // Stringing the pending block h of order k, whose last page is ct, at the front of list k.
  lemma PushLinked(p: Pool, h: int, k: nat, ct: int, nx: seq<int>, pv: seq<int>)
    requires Inv(p, h) && Linked(p, nx, pv) && Head(p.order, h) && p.order[h] == k
    requires ct == h + Pow2(k) - 1
    ensures k < ORDER_NUM && ct < |p.order| && 0 <= nx[|p.order| + k] < |nx|
    ensures var root := |p.order| + k;
      && Linked(p.(free := p.free[k := [h] + p.free[k]]), AddNext(nx, h, ct, root), AddPrev(nx, pv, h, ct, root))
      && BusyEndsKept(p, nx, AddNext(nx, h, ct, root))
  {
    hide Inv, Linked, OthersLinked, StartOf, EndOf, Ring, BusyEndsKept, EditsOnly, Proper, Head;
    PushMine(p, h, k);
    var s, root, w := p.free[k], |p.order| + k, Pow2(k);
    LinkedAt(p, nx, pv, k);
    RingAdd(nx, pv, s, root, w, h);
    FourWrites(p, h, k, nx, pv, ct, nx[root], root, h, h, root, nx[root], ct);
    EditLinked(p, h, k, [h] + s, nx, pv, AddNext(nx, h, ct, root), AddPrev(nx, pv, h, ct, root));
  }

  lemma PushMine(p: Pool, h: int, k: nat)
    requires Inv(p, h) && Head(p.order, h) && p.order[h] == k
    ensures Shape(p) && k < ORDER_NUM && 0 <= h && h + Pow2(k) <= |p.order|
    ensures Proper([h] + p.free[k], |p.order| + k, Pow2(k))
    ensures EndOf(p, h, k, h + Pow2(k) - 1) && EndOf(p, h, k, |p.order| + k)
    ensures StartOf(p, h, k, h) && StartOf(p, h, k, StartNode(p.free[k], |p.order| + k, 0))
  {
    assert BlockAt(p.order, h);
    FreeProper(p, h, k);
    assert Mine(p, h, k, h);
    if p.free[k] != [] { assert FreeHead(p, p.free[k][0], k); }
  }

  // Cutting the pending block h of order q: its first half, ending at page ct, goes to
  // the end of list q-1.
  lemma SplitStepLinked(p: Pool, h: int, q: nat, ct: int, nx: seq<int>, pv: seq<int>)
    requires Inv(p, h) && Linked(p, nx, pv) && Head(p.order, h) && p.order[h] == q > 0
    requires ct == h + Pow2(q - 1) - 1
    ensures q <= MAX_ORDER && h + Pow2(q) <= |p.order| && 0 <= pv[|p.order| + q - 1] < |nx|
    ensures Linked(SplitStep(p, h, q),
                   TailNext(nx, pv, h, ct, |p.order| + q - 1), TailPrev(pv, h, ct, |p.order| + q - 1))
    ensures BusyEndsKept(SplitStep(p, h, q), nx, TailNext(nx, pv, h, ct, |p.order| + q - 1))
  {
    hide Inv, Linked, OthersLinked, SplitStep, Ring, Split, BusyEndsKept, EditsOnly, Head;
    var r, m := SplitUnfold(p, h, q, q - 1);
    var s, root, w := p.free[q - 1], |p.order| + q - 1, Pow2(q - 1);
    SplitOthers(p, h, q, nx, pv);
    LinkedAt(p, nx, pv, q - 1);
    assert r.free[q - 1 := s + [h]] == r.free;
    FreeProper(r, m, q - 1);
    assert (s + [h])[|s|] == h;
    RingAddTail(nx, pv, s, root, w, h);
    TailEdits(r, m, q - 1, s, h, nx, pv);
    EditLinked(r, m, q - 1, s + [h], nx, pv, TailNext(nx, pv, h, ct, root), TailPrev(pv, h, ct, root));
  }

  lemma SplitOthers(p: Pool, h: int, q: nat, nx: seq<int>, pv: seq<int>)
    requires Inv(p, h) && Linked(p, nx, pv) && Head(p.order, h) && p.order[h] == q > 0
    requires q <= MAX_ORDER && h + Pow2(q) <= |p.order|
    ensures OthersLinked(SplitStep(p, h, q), q - 1, nx, pv)
  {
    var r := SplitStep(p, h, q);
    forall j | 0 <= j < ORDER_NUM && j != q - 1
      ensures RingAt(r, nx, pv, j)
    {
      assert RingAt(p, nx, pv, j);
    }
  }

  lemma TailEdits(r: Pool, m: int, k: nat, s: seq<int>, h: int, nx: seq<int>, pv: seq<int>)
    requires Inv(r, m) && k < ORDER_NUM && r.free[k] == s + [h]
    requires |nx| == |pv| == |r.order| + ORDER_NUM && pv[|r.order| + k] == EndNode(s, |r.order| + k, Pow2(k), |s|)
    ensures 0 <= h && h + Pow2(k) <= |r.order| && 0 <= pv[|r.order| + k] < |nx|
    ensures var root := |r.order| + k; var ct := h + Pow2(k) - 1;
      EditsOnly(r, m, k, nx, pv, TailNext(nx, pv, h, ct, root), TailPrev(pv, h, ct, root))
  {
    hide Inv, Mine, Head, EndOf, StartOf, EditsOnly, EndNode;
    var root := |r.order| + k;
    var ct := h + Pow2(k) - 1;
    TailMine(r, m, k, s, h);
    InvShape(r, m);
    FourWrites(r, m, k, nx, pv, pv[root], h, ct, root, h, pv[root], root, ct);
  }

  lemma InvShape(p: Pool, pending: int)
    requires Inv(p, pending)
    ensures Shape(p)
  {
  }

  lemma TailMine(r: Pool, m: int, k: nat, s: seq<int>, h: int)
    requires Inv(r, m) && k < ORDER_NUM && r.free[k] == s + [h]
    ensures 0 <= h && h + Pow2(k) <= |r.order|
    ensures var root := |r.order| + k; var last := EndNode(s, root, Pow2(k), |s|);
      && EndOf(r, m, k, h + Pow2(k) - 1) && EndOf(r, m, k, last) && 0 <= last < |r.order| + ORDER_NUM
      && StartOf(r, m, k, h) && StartOf(r, m, k, root)
  {
    FreeProper(r, m, k);
    assert r.free[k][|s|] == h;
    assert Mine(r, m, k, h);
    if |s| > 0 {
      assert r.free[k][|s| - 1] == s[|s| - 1];
      assert Mine(r, m, k, s[|s| - 1]);
    }
    hide Inv, Mine, Head;
  }

  // The pending block h of order k and its free neighbour t, the lower of them at lo.
  ghost predicate Neighbours(p: Pool, h: int, t: int, lo: int, k: nat)
    requires Shape(p)
  {
    && Head(p.order, h) && p.order[h] == k < MAX_ORDER && FreeHead(p, t, k)
    && ((lo == h && t == h + Pow2(k)) || (lo == t && h == t + Pow2(k)))
  }

  lemma NeighbourFacts(p: Pool, h: int, t: int, lo: int, k: nat)
    requires Inv(p, h) && Neighbours(p, h, t, lo, k)
    ensures t in p.free[k] && 0 <= t && t + Pow2(k) <= |p.order|
    ensures 0 <= lo && lo + 2 * Pow2(k) <= |p.order|
    ensures Proper(p.free[k], |p.order| + k, Pow2(k))
  {
    FreeProper(p, h, k);
    assert BlockAt(p.order, h) && BlockAt(p.order, t);
  }

  // Joining them: t leaves list k and the two page chains are linked at the seam, the
  // first page of the upper block.
  lemma JoinLinked(p: Pool, h: int, t: int, lo: int, k: nat, ct: int, seam: int, nx: seq<int>, pv: seq<int>)
    requires Inv(p, h) && Linked(p, nx, pv) && Neighbours(p, h, t, lo, k)
    requires ct == t + Pow2(k) - 1 && seam == lo + Pow2(k)
    ensures t in p.free[k] && 0 <= t <= ct < |p.order| && 0 <= lo < seam < |p.order|
    ensures 0 <= pv[t] < |nx| && 0 <= nx[ct] < |pv|
    ensures Linked(p.(order := p.order[lo := k + 1][seam := -1], free := p.free[k := Without(p.free[k], t)]),
                   RemoveNext(nx, pv, t, ct)[seam - 1 := seam], RemovePrev(nx, pv, t, ct)[seam := seam - 1])
    ensures BusyEndsKept(p, nx, RemoveNext(nx, pv, t, ct)[seam - 1 := seam])
  {
    NeighbourFacts(p, h, t, lo, k);
    var s, root, w := p.free[k], |p.order| + k, Pow2(k);
    assert Ring(nx, pv, s, root, w) by { assert RingAt(p, nx, pv, k); }
    assert OthersLinked(p, k, nx, pv);
    assert Shape(p) && |nx| == |pv| == |p.order| + ORDER_NUM;
    hide Inv, Linked, OthersLinked, Ring, Neighbours, Proper;
    RingRemove(nx, pv, s, root, w, IndexOf(s, t));
    var nx1, pv1 := RemoveNext(nx, pv, t, ct), RemovePrev(nx, pv, t, ct);
    JoinRing(p, h, t, lo, k, seam, nx1, pv1);
    JoinEdits(p, h, t, lo, k, ct, seam, nx, pv);
    var nx2, pv2 := nx1[seam - 1 := seam], pv1[seam := seam - 1];
    EditLinked(p, h, k, Without(s, t), nx, pv, nx2, pv2);
    JoinInner(p.(free := p.free[k := Without(s, t)]), lo, seam, k, nx2, pv2);
  }

  lemma JoinInner(p: Pool, lo: int, seam: int, k: nat, nx: seq<int>, pv: seq<int>)
    requires Shape(p) && Linked(p, nx, pv) && 0 <= lo < seam < |p.order| && k < MAX_ORDER
    requires nx[seam - 1] == seam && pv[seam] == seam - 1
    ensures Linked(p.(order := p.order[lo := k + 1][seam := -1]), nx, pv)
  {
    var r := p.(order := p.order[lo := k + 1][seam := -1]);
    forall j | 0 <= j < ORDER_NUM
      ensures RingAt(r, nx, pv, j)
    {
      assert RingAt(p, nx, pv, j);
    }
  }

  lemma JoinRing(p: Pool, h: int, t: int, lo: int, k: nat, seam: int, nx1: seq<int>, pv1: seq<int>)
    requires Inv(p, h) && Neighbours(p, h, t, lo, k) && seam == lo + Pow2(k) && t in p.free[k]
    requires 0 < seam < |p.order|
    requires |nx1| == |p.order| + ORDER_NUM && Ring(nx1, pv1, Without(p.free[k], t), |p.order| + k, Pow2(k))
    ensures |pv1| == |nx1|
    ensures Ring(nx1[seam - 1 := seam], pv1[seam := seam - 1], Without(p.free[k], t), |p.order| + k, Pow2(k))
  {
    var root, w := |p.order| + k, Pow2(k);
    WithoutMembers(p.free[k], t);
    var r := Without(p.free[k], t);
    FreeProper(p, h, k);
    forall j | 0 <= j < |r|
      ensures 0 <= r[j] && r[j] + w <= root && r[j] != seam && r[j] + w != seam
    {
      assert r[j] in r && r[j] in p.free[k];
      assert FreeHead(p, r[j], k) && r[j] != h && r[j] != t;
    }
    hide Inv, Neighbours, FreeHead, Without;
    RingFrame(nx1, pv1, nx1[seam - 1 := seam], pv1[seam := seam - 1], r, root, w);
  }

  lemma JoinEdits(p: Pool, h: int, t: int, lo: int, k: nat, ct: int, seam: int, nx: seq<int>, pv: seq<int>)
    requires Inv(p, h) && Neighbours(p, h, t, lo, k) && ct == t + Pow2(k) - 1 && seam == lo + Pow2(k)
    requires t in p.free[k] && 0 <= t <= ct < |p.order| && 0 < seam < |p.order|
    requires |nx| == |pv| == |p.order| + ORDER_NUM
    requires pv[t] == EndNode(p.free[k], |p.order| + k, Pow2(k), IndexOf(p.free[k], t)) && 0 <= pv[t] < |nx|
    requires nx[ct] == StartNode(p.free[k], |p.order| + k, IndexOf(p.free[k], t) + 1) && 0 <= nx[ct] < |nx|
    ensures EditsOnly(p, h, k, nx, pv,
              RemoveNext(nx, pv, t, ct)[seam - 1 := seam], RemovePrev(nx, pv, t, ct)[seam := seam - 1])
  {
    JoinMine(p, h, t, lo, k, IndexOf(p.free[k], t));
    hide Inv, Neighbours, Mine, FreeHead, Head, EndOf, StartOf, EditsOnly;
    FourWrites(p, h, k, nx, pv, pv[t], nx[ct], seam - 1, seam, nx[ct], pv[t], seam, seam - 1);
  }

  lemma JoinMine(p: Pool, h: int, t: int, lo: int, k: nat, i: nat)
    requires Inv(p, h) && Neighbours(p, h, t, lo, k) && i < |p.free[k]| && p.free[k][i] == t
    ensures EndOf(p, h, k, EndNode(p.free[k], |p.order| + k, Pow2(k), i)) && EndOf(p, h, k, lo + Pow2(k) - 1)
    ensures StartOf(p, h, k, StartNode(p.free[k], |p.order| + k, i + 1)) && StartOf(p, h, k, lo + Pow2(k))
  {
    var s := p.free[k];
    assert Shape(p) && 0 <= lo;
    assert Mine(p, h, k, lo) && Mine(p, h, k, lo + Pow2(k)) && p.order[lo] == k;
    if i > 0 { assert s[i - 1] in s; assert FreeHead(p, s[i - 1], k); assert Mine(p, h, k, s[i - 1]); }
    if i + 1 < |s| { assert s[i + 1] in s; assert FreeHead(p, s[i + 1], k); }
  }
}
