/**
 Facts about division, remainders and powers of two that the solver needs spelled out.
 */
module Arith {

  const M32: nat := 0x1_0000_0000
  const M64: nat := 0x1_0000_0000_0000_0000

  // ----- Quotient and remainder -----

  lemma BigMultiple(k: int, n: nat)
    requires k != 0
    ensures k * n >= n || k * n + n <= 0
  {
    if k > 0 {
      assert (k - 1) * n >= 0;
    } else {
      assert (-k - 1) * n >= 0;
    }
  }

  lemma Distribute(a: int, b: int, n: int)
    ensures (a + b) * n == a * n + b * n
    ensures (a - b) * n == a * n - b * n
  {
  }

  lemma Associate(a: int, b: int, c: int)
    ensures a * (b * c) == (a * b) * c
  {
  }

  /** Quotient and remainder are determined by the division equation. */
  lemma DivModUnique(x: int, q: int, r: int, n: nat)
    requires 0 <= r < n && x == q * n + r
    ensures x / n == q && x % n == r
  {
    assert x == (x / n) * n + x % n;
    Distribute(q, x / n, n);
    if q != x / n {
      BigMultiple(q - x / n, n);
    }
  }

  lemma ModOfMultiple(q: int, n: nat)
    requires n > 0
    ensures (q * n) % n == 0 && (q * n) / n == q
  {
    DivModUnique(q * n, q, 0, n);
  }

  /** Remainders survive a reduction modulo a multiple of the modulus. */
  lemma ModMod(x: int, k: nat, n: nat)
    requires n > 0 && k > 0
    ensures k * n > 0 && (x % (k * n)) % n == x % n
  {
    assert k * n >= n by { BigMultiple(k, n); }
    var m := k * n;
    var q, y := x / m, x % m;
    assert x == q * m + y;
    var t, s := y / n, y % n;
    assert y == t * n + s;
    Associate(q, k, n);
    Distribute(q * k, t, n);
    DivModUnique(x, q * k + t, s, n);
  }

  /** Equal remainders mean a difference that is a multiple. */
  lemma ModEqualIff(x: int, y: int, n: nat)
    requires n > 0
    ensures x % n == y % n <==> (x - y) % n == 0
  {
    var a, b := x / n, y / n;
    assert x == a * n + x % n && y == b * n + y % n;
    Distribute(a, b, n);
    var d := x % n - y % n;
    assert x - y == (a - b) * n + d;
    if d >= 0 {
      DivModUnique(x - y, a - b, d, n);
    } else {
      Distribute(a - b, -1, n);
      DivModUnique(x - y, a - b - 1, d + n, n);
    }
  }

  lemma ModAdd(x: int, y: int, n: nat)
    requires n > 0
    ensures (x % n + y) % n == (x + y) % n
  {
    var q := x / n;
    assert x == q * n + x % n;
    var t := (x % n + y) / n;
    Distribute(q, t, n);
    DivModUnique(x + y, q + t, (x % n + y) % n, n);
  }

  /** Numbers of one window of length `n` have different remainders. */
  lemma WindowDistinct(x: int, y: int, n: nat)
    requires x < y < x + n
    ensures x % n != y % n
  {
    ModEqualIff(y, x, n);
    DivModUnique(y - x, 0, y - x, n);
  }

  // ----- Powers of two -----

  function Pow2(k: nat): (p: nat)
    ensures p >= 1
  {
    if k == 0 then 1 else 2 * Pow2(k - 1)
  }

  lemma {:induction false} Pow2Add(a: nat, b: nat)
    ensures Pow2(a + b) == Pow2(a) * Pow2(b)
    decreases a
  {
    if a > 0 {
      Pow2Add(a - 1, b);
      Associate(2, Pow2(a - 1), Pow2(b));
    }
  }

  lemma Pow2Known()
    ensures Pow2(8) == 0x100 && Pow2(16) == 0x1_0000 && Pow2(32) == M32 && Pow2(64) == M64
  {
    assert Pow2(4) == 16;
    Pow2Add(4, 4);
    Pow2Add(8, 8);
    Pow2Add(16, 16);
    Pow2Add(32, 32);
  }
}
