// Masks and shifts on numbers, bit by bit.
module Bits {
  import opened Powers

  function And(x: nat, y: nat): nat {
    if x == 0 then 0 else x % 2 * (y % 2) + 2 * And(x / 2, y / 2)
  }

  function Or(x: nat, y: nat): nat {
    if x == 0 then y else (if x % 2 + y % 2 > 0 then 1 else 0) + 2 * Or(x / 2, y / 2)
  }

  function Shr(x: nat, k: nat): nat {
    if k == 0 then x else Shr(x / 2, k - 1)
  }

  // The number with high part q, of which the low k bits are r.
  function Compose(q: nat, r: nat, k: nat): nat {
    q * Pow2(k) + r
  }

  lemma ComposeHalf(q: nat, r: nat, k: nat)
    requires k > 0
    ensures Compose(q, r, k) / 2 == Compose(q, r / 2, k - 1) && Compose(q, r, k) % 2 == r % 2
  {
    assert q * Pow2(k) == 2 * (q * Pow2(k - 1));
  }

  // Shifting out the low k bits leaves the high part.
  lemma {:induction false} ShrCompose(q: nat, r: nat, k: nat)
    requires r < Pow2(k)
    ensures Shr(Compose(q, r, k), k) == q
    decreases k
  {
    if k > 0 {
      ComposeHalf(q, r, k);
      ShrCompose(q, r / 2, k - 1);
    }
  }

  // Keeping m bits above the low k clears the low ones and nothing else.
  lemma {:induction false} AndHigh(q: nat, r: nat, k: nat, m: nat)
    requires r < Pow2(k) && q < Pow2(m)
    ensures And(Compose(q, r, k), Compose(Pow2(m) - 1, 0, k)) == Compose(q, 0, k)
    decreases k + m
  {
    hide And, Compose, Pow2;
    if k > 0 {
      Pow2Step(k);
      ComposeHalf(q, r, k);
      ComposeHalf(Pow2(m) - 1, 0, k);
      ComposeHalf(q, 0, k);
      AndHigh(q, r / 2, k - 1, m);
      AndUnfold(Compose(q, r, k), Compose(Pow2(m) - 1, 0, k));
    } else {
      Pow2Step(0);
      ComposeZero(q, r);
      ComposeZero(Pow2(m) - 1, 0);
      ComposeZero(q, 0);
      AndAll(q, m);
    }
  }

  lemma Pow2Step(k: nat)
    ensures Pow2(k) == if k == 0 then 1 else 2 * Pow2(k - 1)
  {
  }

  lemma ComposeZero(q: nat, r: nat)
    ensures Compose(q, r, 0) == q + r
  {
    assert Pow2(0) == 1;
  }

  lemma {:induction false} AndAll(q: nat, m: nat)
    requires q < Pow2(m)
    ensures And(q, Pow2(m) - 1) == q
    decreases m
  {
    hide And, Pow2;
    Pow2Step(m);
    AndUnfold(q, Pow2(m) - 1);
    if m > 0 {
      AndAll(q / 2, m - 1);
    } else {
      AndZero();
    }
  }

  lemma AndZero()
    ensures And(0, 0) == 0
  {
  }

  lemma AndUnfold(x: nat, y: nat)
    ensures And(x, y) == x % 2 * (y % 2) + 2 * And(x / 2, y / 2)
  {
  }

  // Setting bits where there are zeroes is adding.
  lemma {:induction false} OrLow(q: nat, r: nat, k: nat)
    requires r < Pow2(k)
    ensures Or(Compose(q, 0, k), r) == Compose(q, r, k)
    decreases k
  {
    if k > 0 {
      ComposeHalf(q, 0, k);
      ComposeHalf(q, r, k);
      OrLow(q, r / 2, k - 1);
      OrUnfold(Compose(q, 0, k), r);
    } else {
      OrZero(q);
    }
  }

  lemma {:induction false} OrZero(x: nat)
    ensures Or(x, 0) == x
  {
    if x > 0 {
      OrUnfold(x, 0);
      OrZero(x / 2);
    }
  }

  lemma OrUnfold(x: nat, y: nat)
    ensures Or(x, y) == (if x % 2 + y % 2 > 0 then 1 else 0) + 2 * Or(x / 2, y / 2)
  {
    if x == 0 { assert Or(0, y / 2) == y / 2; }
  }

  // Bits set one after another are the bits set together.
  lemma {:induction false} OrAssociative(x: nat, y: nat, z: nat)
    ensures Or(Or(x, y), z) == Or(x, Or(y, z))
  {
    if x > 0 {
      OrUnfold(x, y);
      OrUnfold(Or(x, y), z);
      OrUnfold(y, z);
      OrUnfold(x, Or(y, z));
      OrAssociative(x / 2, y / 2, z / 2);
    }
  }
}
