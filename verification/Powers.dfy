// Powers of two, the null pointer and small facts about sequences, shared by the
// components of the memory manager.
module Powers {

  // Links are indices and addresses are offsets; none of them is negative.
  const NULL: int := -1

  function Pow2(k: nat): (r: nat)
    ensures r >= 1
  {
    if k == 0 then 1 else 2 * Pow2(k - 1)
  }

  lemma {:induction false} Pow2Monotone(a: nat, b: nat)
    requires a <= b
    ensures Pow2(a) <= Pow2(b)
    decreases b
  {
    if a < b {
      Pow2Monotone(a, b - 1);
    }
  }

  lemma Pow2Small()
    ensures Pow2(0) == 1 && Pow2(1) == 2 && Pow2(2) == 4 && Pow2(3) == 8 && Pow2(4) == 16
    ensures Pow2(5) == 32 && Pow2(6) == 64 && Pow2(7) == 128 && Pow2(8) == 256
  {
    assert Pow2(2) == 4;
    assert Pow2(4) == 16;
    assert Pow2(6) == 64;
  }

  ghost predicate NoDup<T>(s: seq<T>) {
    forall i, j | 0 <= i < j < |s| :: s[i] != s[j]
  }

  function IndexOf<T(==)>(s: seq<T>, x: T): (j: nat)
    requires x in s
    ensures j < |s| && s[j] == x
  {
    if s[0] == x then 0 else 1 + IndexOf(s[1..], x)
  }

  function RemoveAt<T>(s: seq<T>, j: nat): (r: seq<T>)
    requires j < |s|
  {
    s[..j] + s[j + 1..]
  }

  // The list with the first occurrence of x taken out.
  function Without<T(==)>(s: seq<T>, x: T): (r: seq<T>)
    requires x in s
  {
    RemoveAt(s, IndexOf(s, x))
  }

  lemma WithoutMembers<T>(s: seq<T>, x: T)
    requires NoDup(s) && x in s
    ensures NoDup(Without(s, x))
    ensures |Without(s, x)| == |s| - 1
    ensures forall y :: y in Without(s, x) <==> y in s && y != x
  {
    var j := IndexOf(s, x);
    var r := Without(s, x);
    assert forall i | 0 <= i < |r| :: r[i] == if i < j then s[i] else s[i + 1];
    forall y | y in s && y != x
      ensures y in r
    {
      var i :| 0 <= i < |s| && s[i] == y;
      if i < j {
        assert r[i] == y;
      } else {
        assert r[i - 1] == y;
      }
    }
  }

  // ---------- division ----------

  // The remainder is the only number below the divisor that is left over.
  lemma Remainder(b: nat, size: nat, q: nat, r: nat)
    requires r < size && b == q * size + r
    ensures b % size == r
  {
    var p, t := b / size, b % size;
    assert b == size * p + t;
    assert (q - p) * size == t - r;
    NoMultiple(q - p, size, t - r);
  }

  lemma NoMultiple(d: int, size: int, x: int)
    requires d * size == x && -size < x < size
    ensures x == 0
  {
    if d >= 1 {
      AtLeast(d, size);
    } else if d <= -1 {
      assert -d * size == -x;
      AtLeast(-d, size);
    }
  }

  lemma AtLeast(d: int, size: int)
    requires d >= 1 && size >= 0
    ensures d * size >= size
  {
    assert d * size == (d - 1) * size + size;
  }

  lemma Product(a: nat, b: nat, w: nat)
    requires a <= b
    ensures a * w <= b * w
  {
    assert (b - a) * w >= 0;
    assert (b - a) * w == b * w - a * w;
  }

  // The remainder as a function, so that proofs can keep it folded.
  function Rem(x: nat, a: nat): (r: nat)
    requires a > 0
    ensures r < a
  {
    x % a
  }

  lemma RemUnique(x: nat, a: nat, k: nat, d: nat)
    requires d < a && x == k * a + d
    ensures Rem(x, a) == d
  {
    Remainder(x, a, k, d);
  }

  lemma RemQuotient(x: nat, a: nat) returns (k: nat)
    requires a > 0
    ensures x == k * a + Rem(x, a)
  {
    k := x / a;
  }

  // ---------- multiples of powers of two ----------

  predicate Multiple(h: nat, k: nat) {
    h % Pow2(k) == 0
  }

  lemma MultipleOf(c: nat, k: nat)
    ensures Multiple(c * Pow2(k), k)
  {
    Remainder(c * Pow2(k), Pow2(k), c, 0);
  }

  lemma Factor(h: nat, k: nat) returns (c: nat)
    requires Multiple(h, k)
    ensures h == c * Pow2(k)
  {
    c := h / Pow2(k);
    assert h == Pow2(k) * c + h % Pow2(k);
  }

  lemma {:induction false} MultipleLess(h: nat, j: nat, k: nat)
    requires Multiple(h, k) && j <= k
    ensures Multiple(h, j)
    decreases k
  {
    hide Multiple;
    if j < k {
      var c := Factor(h, k);
      assert c * Pow2(k) == (2 * c) * Pow2(k - 1);
      MultipleOf(2 * c, k - 1);
      MultipleLess(h, j, k - 1);
    }
  }

  // Of two neighbouring multiples of 2^k one is a multiple of 2^(k+1).
  lemma MultipleNext(h: nat, k: nat)
    ensures Multiple(h + Pow2(k), k) <==> Multiple(h, k)
    ensures Multiple(h, k) ==> (Multiple(h + Pow2(k), k + 1) <==> !Multiple(h, k + 1))
  {
    hide Multiple;
    if Multiple(h, k) {
      var c := Factor(h, k);
      assert h + Pow2(k) == (c + 1) * Pow2(k);
      MultipleOf(c + 1, k);
      OneOfTwo(h, c, k);
    }
    if Multiple(h + Pow2(k), k) {
      var c := Factor(h + Pow2(k), k);
      assert c > 0;
      assert (c - 1) * Pow2(k) == c * Pow2(k) - Pow2(k);
      MultipleOf(c - 1, k);
    }
  }

  lemma OneOfTwo(h: nat, c: nat, k: nat)
    requires h == c * Pow2(k)
    ensures Multiple(h, k + 1) <==> c % 2 == 0
    ensures Multiple(h + Pow2(k), k + 1) <==> c % 2 == 1
  {
    hide Multiple;
    Halves(h, c, k);
    assert h + Pow2(k) == (c + 1) * Pow2(k);
    Halves(h + Pow2(k), c + 1, k);
  }

  lemma Halves(h: nat, c: nat, k: nat)
    requires h == c * Pow2(k)
    ensures Multiple(h, k + 1) <==> c % 2 == 0
  {
    var d := c / 2;
    assert Pow2(k + 1) == 2 * Pow2(k);
    assert c * Pow2(k) == d * Pow2(k + 1) + (c % 2) * Pow2(k);
    Remainder(h, Pow2(k + 1), d, (c % 2) * Pow2(k));
  }

  // Between two multiples of 2^k there is room for 2^k.
  lemma MultipleRoom(g: nat, n: nat, k: nat)
    requires Multiple(g, k) && Multiple(n, k) && g < n
    ensures g + Pow2(k) <= n
  {
    hide Multiple;
    var c := Factor(g, k);
    var d := Factor(n, k);
    if c >= d { Product(d, c, Pow2(k)); }
    assert (d - c) * Pow2(k) == d * Pow2(k) - c * Pow2(k);
    AtLeast(d - c, Pow2(k));
  }
}
