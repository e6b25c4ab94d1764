// Boot time: stringing the pages one by one builds the lists of the initial pool.
module BuddyInit {
  import opened Powers
  import opened BuddySpec
  import opened BuddyLinks
  import opened BuddyRuns

  // The list at root holds exactly the pages a, a+1, ..., b-1 in this order.
  ghost predicate Chain(nx: seq<int>, pv: seq<int>, root: int, a: int, b: int) {
    && |nx| == |pv| && 0 <= a <= b <= root < |nx|
    && (a == b ==> nx[root] == root && pv[root] == root)
    && (a < b ==> nx[root] == a && pv[a] == root && pv[root] == b - 1 && nx[b - 1] == root)
    && (forall j | a < j < b :: pv[j] == j - 1)
    && (forall j | a <= j < b - 1 :: nx[j] == j + 1)
  }

  lemma ChainGrow(nx: seq<int>, pv: seq<int>, root: int, a: int, b: int)
    requires Chain(nx, pv, root, a, b) && b < root
    ensures 0 <= pv[root] < |nx|
    ensures Chain(TailNext(nx, pv, b, b, root), TailPrev(pv, b, b, root), root, a, b + 1)
  {
  }

  lemma ChainApart(nx: seq<int>, pv: seq<int>, root: int, a: int, b: int, root2: int, a2: int, b2: int)
    requires Chain(nx, pv, root, a, b) && Chain(nx, pv, root2, a2, b2) && root != root2
    requires b < root && b < root2 && b2 < root && (b2 <= a || b < a2 || a2 == b2)
    ensures 0 <= pv[root] < |nx|
    ensures Chain(TailNext(nx, pv, b, b, root), TailPrev(pv, b, b, root), root2, a2, b2)
  {
  }

  // After i pages have been strung: whole largest blocks on the last list, the rest on
  // the first, and nothing on the others.
  ghost predicate Strung(n: nat, i: nat, nx: seq<int>, pv: seq<int>) {
    && |nx| == |pv| == n + ORDER_NUM && i <= n
    && Chain(nx, pv, n + MAX_ORDER, 0, if i <= MaxPages(n) then i else MaxPages(n))
    && Chain(nx, pv, n, MaxPages(n), if i <= MaxPages(n) then MaxPages(n) else i)
    && forall r | n < r < n + MAX_ORDER :: nx[r] == r && pv[r] == r
  }

  function RootFor(n: nat, i: nat): int {
    if i < MaxPages(n) then n + MAX_ORDER else n
  }

  lemma StringOne(n: nat, i: nat, nx: seq<int>, pv: seq<int>)
    requires Strung(n, i, nx, pv) && i < n
    ensures var root := RootFor(n, i);
      && 0 <= pv[root] < |nx|
      && Strung(n, i + 1, TailNext(nx, pv, i, i, root), TailPrev(pv, i, i, root))
  {
    MaxPagesFacts(n);
    var m := MaxPages(n);
    if i < m {
      ChainGrow(nx, pv, n + MAX_ORDER, 0, i);
      ChainApart(nx, pv, n + MAX_ORDER, 0, i, n, m, m);
    } else {
      ChainGrow(nx, pv, n, m, i);
      ChainApart(nx, pv, n, m, i, n + MAX_ORDER, 0, m);
    }
  }

  // Links already right for i pages do not depend on the later pages' own links.
  lemma StringLater(n: nat, i: nat, nx: seq<int>, pv: seq<int>, x: int, y: int)
    requires Strung(n, i, nx, pv) && i < n
    ensures Strung(n, i, nx[i := x], pv[i := y])
  {
    MaxPagesFacts(n);
  }

  lemma RingOfBlocks(nx: seq<int>, pv: seq<int>, root: int, a: nat, count: nat, w: nat, s: seq<int>)
    requires w > 0 && |s| == count && forall i | 0 <= i < count :: s[i] == a + i * w
    requires Chain(nx, pv, root, a, a + count * w)
    ensures Ring(nx, pv, s, root, w)
  {
    forall j | 0 <= j <= |s|
      ensures 0 <= StartNode(s, root, j) < |nx| && 0 <= EndNode(s, root, w, j) < |nx|
      ensures nx[EndNode(s, root, w, j)] == StartNode(s, root, j)
      ensures pv[StartNode(s, root, j)] == EndNode(s, root, w, j)
    {
      if 0 < j {
        assert EndNode(s, root, w, j) == a + (j - 1) * w + w - 1;
        assert (j - 1) * w + w == j * w;
        Product(j, count, w);
      }
      if j < count { Product(j + 1, count, w); assert (j + 1) * w == j * w + w; }
      Product(0, j, w);
      if count > 0 { Product(1, count, w); }
    }
  }

  lemma StrungLinked(n: nat, nx: seq<int>, pv: seq<int>)
    requires Strung(n, n, nx, pv)
    ensures Linked(Init(n), nx, pv)
  {
    var p := Init(n);
    MaxPagesFacts(n);
    Pow2Small();
    forall k | 0 <= k < ORDER_NUM
      ensures RingAt(p, nx, pv, k)
    {
      if k == 0 {
        RingOfBlocks(nx, pv, n, MaxPages(n), n - MaxPages(n), 1, p.free[0]);
      } else if k == MAX_ORDER {
        assert n / 256 * 256 == MaxPages(n);
        RingOfBlocks(nx, pv, n + MAX_ORDER, 0, n / 256, 256, p.free[8]);
      } else {
        assert p.free[k] == [];
      }
    }
  }
}
