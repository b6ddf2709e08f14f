/** Products, powers of two, and bitwise `and` on naturals. */
module Arithmetic {

  lemma Fits(size: nat, a: nat, b: nat)
    requires a <= b
    ensures size * a <= size * b
  {
  }

  /** Blocks of one size at different indices do not overlap. */
  lemma Apart(size: nat, i: nat, j: nat)
    requires i < j
    ensures i * size + size <= j * size
  {
    assert (i + 1) * size <= j * size;
  }

  /** Dividing an address offset by the block size finds the index again. */
  lemma IndexOf(size: nat, count: nat, i: nat, offset: nat)
    requires size > 0
    ensures offset == i * size ==> offset % size == 0 && offset / size == i
    ensures offset % size == 0 ==> offset == offset / size * size
    ensures offset < size * count ==> offset / size < count
  {
    var q, r := offset / size, offset % size;
    assert offset == q * size + r && 0 <= r < size;
    if offset == i * size {
      if q < i { Apart(size, q, i); }
      if i < q { Apart(size, i, q); }
    }
    if offset < size * count && count <= q {
      Fits(size, count, q);
    }
  }

  function Pow2(k: nat): (p: nat)
    ensures p > 0
  {
    if k == 0 then 1 else 2 * Pow2(k - 1)
  }

  /** Bitwise `and`, bit by bit from the lowest. */
  function And(x: nat, y: nat): nat {
    if x == 0 || y == 0 then 0
    else (if x % 2 == 1 && y % 2 == 1 then 1 else 0) + 2 * And(x / 2, y / 2)
  }

  lemma {:induction false} AndSelf(x: nat)
    ensures And(x, x) == x
  {
    if x != 0 {
      AndSelf(x / 2);
    }
  }

  ghost predicate IsPow2(v: nat) {
    exists k: nat :: v == Pow2(k)
  }

  lemma Pow2Doubled(w: nat)
    requires w > 0
    ensures IsPow2(2 * w) <==> IsPow2(w)
  {
    if k: nat :| w == Pow2(k) {
      assert 2 * w == Pow2(k + 1);
    }
    if k: nat :| 2 * w == Pow2(k) {
      assert k > 0 && w == Pow2(k - 1);
    }
  }

  /** `v & (v - 1)` is zero for exactly the powers of two. */
  lemma {:induction false} AndBelow(v: nat)
    requires v > 0
    ensures And(v, v - 1) == 0 <==> IsPow2(v)
  {
    hide IsPow2;
    var w := v / 2;
    if v % 2 == 0 {
      AndBelow(w);
      Pow2Doubled(w);
      assert (v - 1) / 2 == w - 1;
    } else {
      AndSelf(w);
      OddPow2(v);
      assert (v - 1) / 2 == w;
    }
  }

  lemma OddPow2(v: nat)
    requires v % 2 == 1
    ensures IsPow2(v) <==> v == 1
  {
    assert Pow2(0) == 1;
    forall k: nat | v == Pow2(k)
      ensures k == 0
    {
    }
  }

  lemma {:induction false} AndOnes(c: nat, n: nat)
    requires c < Pow2(n)
    ensures And(c, Pow2(n) - 1) == c
    decreases n
  {
    if n > 0 {
      AndOnes(c / 2, n - 1);
      assert (Pow2(n) - 1) / 2 == Pow2(n - 1) - 1;
    }
  }

  lemma AndEven(c: nat, m: nat)
    ensures And(c, 2 * m) == 2 * And(c / 2, m)
  {
    assert 2 * m / 2 == m;
  }

  /** Masking with `n - k` ones above `k` zeros rounds down to a multiple of `2^k`. */
  lemma {:induction false} MaskRoundsDown(c: nat, n: nat, k: nat) returns (q: nat)
    requires k <= n && c < Pow2(n)
    ensures Pow2(k) <= Pow2(n)
    ensures And(c, Pow2(n) - Pow2(k)) == q * Pow2(k)
    ensures q * Pow2(k) <= c < q * Pow2(k) + Pow2(k)
    decreases n
  {
    hide And;
    if k == 0 {
      AndOnes(c, n);
      q := c;
    } else {
      q := MaskRoundsDown(c / 2, n - 1, k - 1);
      AndEven(c, Pow2(n - 1) - Pow2(k - 1));
      Doubled(q, Pow2(k - 1));
    }
  }

  lemma Doubled(q: nat, p: nat)
    ensures q * (2 * p) == 2 * (q * p)
  {
  }

  lemma Pow2Of64()
    ensures Pow2(64) == 0x1_0000_0000_0000_0000
  {
    assert Pow2(8) == 0x100;
    assert Pow2(16) == 0x1_0000;
    assert Pow2(24) == 0x100_0000;
    assert Pow2(32) == 0x1_0000_0000;
    assert Pow2(40) == 0x100_0000_0000;
    assert Pow2(48) == 0x1_0000_0000_0000;
    assert Pow2(56) == 0x100_0000_0000_0000;
  }

  lemma {:induction false} Pow2Monotone(j: nat, k: nat)
    requires j <= k
    ensures Pow2(j) <= Pow2(k)
    decreases k
  {
    if j < k {
      Pow2Monotone(j, k - 1);
    }
  }

  lemma {:induction false} Pow2Divides(k: nat, n: nat) returns (m: nat)
    requires k <= n
    ensures Pow2(n) == m * Pow2(k)
    decreases n
  {
    if k == n {
      m := 1;
    } else {
      m := Pow2Divides(k, n - 1);
      m := 2 * m;
    }
  }
}
