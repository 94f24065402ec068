/**
 Shifts as division and multiplication, and how they go with exclusive-or and or.
 */
module Shifts {
  import opened Arith
  import opened Bits

  function Shr(x: nat, k: nat): nat
  {
    if k == 0 then x else Shr(x / 2, k - 1)
  }

  /** A left shift of a 32-bit value. */
  function Shl32(x: nat, k: nat): nat
    decreases k
  {
    if k == 0 then x % M32 else Shl32((2 * x) % M32, k - 1)
  }

  /** The low `r` bits of a 32-bit value move to the top. */
  function RotateRight(x: nat, r: nat): (y: nat)
    requires r < 32
  {
    High(x, r) + Up(Low(x, r), 32 - r)
  }

  /** All but the low `r` bits, the low `r` bits, and a left shift of any width. */
  function High(x: nat, r: nat): nat
  {
    NonnegativeQuotient(x, Pow2(r));
    x / Pow2(r)
  }

  lemma NonnegativeQuotient(x: nat, p: nat)
    requires p > 0
    ensures x / p >= 0
  {
    var q := x / p;
    assert x == q * p + x % p;
    if q < 0 {
      BigMultiple(q, p);
    }
  }

  function Low(x: nat, r: nat): nat { x % Pow2(r) }

  function Up(x: nat, r: nat): nat { x * Pow2(r) }

  lemma DivTwice(x: nat, p: nat)
    requires p > 0
    ensures (x / 2) / p == x / (2 * p)
  {
    var q, r := (x / 2) / p, (x / 2) % p;
    assert x / 2 == q * p + r;
    Associate(q, 2, p);
    Associate(2, q, p);
    DivModUnique(x, q, 2 * r + x % 2, 2 * p);
  }

  lemma {:induction false} ShrIsDivision(x: nat, k: nat)
    ensures Shr(x, k) == High(x, k)
    decreases k
  {
    if k > 0 {
      ShrIsDivision(x / 2, k - 1);
      DivTwice(x, Pow2(k - 1));
    }
  }

  lemma {:induction false} Shl32IsProduct(x: nat, k: nat)
    ensures Shl32(x, k) == Up(x, k) % M32
    decreases k
  {
    if k > 0 {
      var p := Pow2(k - 1);
      Shl32IsProduct((2 * x) % M32, k - 1);
      ModTimes(2 * x, p);
      Associate(x, 2, p);
    }
  }

  lemma ModTimes(x: nat, p: nat)
    ensures ((x % M32) * p) % M32 == (x * p) % M32
  {
    var q := x / M32;
    assert x == q * M32 + x % M32;
    Distribute(q * M32, x % M32, p);
    Associate(q, M32, p);
    Associate(q, p, M32);
    ModOfMultiple(q * p, M32);
    ModEqualIff(x * p, (x % M32) * p, M32);
  }

  // ----- Or of words without common bits -----

  /** `a` below a multiple of 2^k. */
  lemma {:induction false} OrDisjoint(a: nat, b: nat, k: nat)
    requires a < Pow2(k)
    ensures Or(a, Up(b, k)) == a + Up(b, k)
    decreases k
  {
    if k == 0 {
      OrNothing(b);
    } else {
      var p := Pow2(k - 1);
      OrDisjoint(a / 2, b, k - 1);
      Associate(b, 2, p);
      Associate(2, b, p);
      OrBits(a, b * p);
    }
  }

  lemma OrBits(a: nat, t: nat)
    ensures Or(a, 2 * t) == a % 2 + 2 * Or(a / 2, t)
  {
  }

  lemma {:induction false} OrNothing(b: nat)
    ensures Or(0, b) == b
    decreases b
  {
    if b > 0 {
      OrNothing(b / 2);
    }
  }

  lemma {:induction false} OrComm(a: nat, b: nat)
    ensures Or(a, b) == Or(b, a)
    decreases a + b
  {
    if a + b > 0 {
      OrComm(a / 2, b / 2);
    }
  }

  lemma {:induction false} OrSelf(b: nat)
    ensures Or(b, b) == b
    decreases b
  {
    if b > 0 {
      OrSelf(b / 2);
    }
  }

  lemma OneMore(lo: nat, p: nat, q: nat)
    requires lo < p
    ensures lo * q + q <= p * q
  {
    Distribute(p, lo + 1, q);
    Distribute(lo, 1, q);
    Nonnegative(p - lo - 1, q);
  }

  lemma Nonnegative(a: nat, b: nat)
    ensures a * b >= 0
  {
  }

  lemma SmallQuotient(hi: nat, lo: nat, p: nat, q: nat)
    requires hi * p + lo < q * p
    ensures hi < q
  {
    if hi >= q {
      Distribute(hi, q, p);
      Nonnegative(hi - q, p);
    }
  }

  /** A 32-bit value cut in two: its low part shifted up by the width of the high part. */
  lemma CutAndShift(x: nat, hi: nat, lo: nat, p: nat, q: nat)
    requires x == hi * p + lo && lo < p && p * q == M32 && x < M32 && q > 0
    ensures hi < q && (x * q) % M32 == lo * q
  {
    assert q * p == p * q;
    SmallQuotient(hi, lo, p, q);
    Distribute(hi * p, lo, q);
    Associate(hi, p, q);
    OneMore(lo, p, q);
    DivModUnique(x * q, hi, lo * q, M32);
  }

  lemma Cut(x: nat, r: nat)
    requires x < M32 && 0 < r < 32
    ensures High(x, r) < Pow2(32 - r)
    ensures Up(x, 32 - r) % M32 == Up(Low(x, r), 32 - r)
    ensures Up(Low(x, r), 32 - r) + Pow2(32 - r) <= M32
    ensures x == Up(High(x, r), r) + Low(x, r)
  {
    Pow2Add(r, 32 - r);
    Pow2Known();
    hide Pow2;
    CutBy(x, Pow2(r), Pow2(32 - r));
  }

  lemma CutBy(x: nat, p: nat, q: nat)
    requires x < M32 && p * q == M32 && p > 0 && q > 0
    ensures x / p < q && (x * q) % M32 == (x % p) * q && (x % p) * q + q <= M32 && x == (x / p) * p + x % p
  {
    var hi, lo := x / p, x % p;
    assert x == hi * p + lo;
    CutAndShift(x, hi, lo, p, q);
    OneMore(lo, p, q);
  }

  lemma RotateByNone(x: nat)
    ensures RotateRight(x, 0) == x
  {
    assert Pow2(0) == 1 && x / 1 == x && x % 1 == 0;
  }

  lemma OrByNone(x: nat)
    requires x < M32
    ensures Or(Shr(x, 0), Shl32(x, 0)) == RotateRight(x, 0)
  {
    hide Or, Shr, Shl32, RotateRight;
    ShiftByNone(x);
    RotateByNone(x);
    OrSelf(x);
  }

  lemma ShiftByNone(x: nat)
    requires x < M32
    ensures Shr(x, 0) == x && Shl32(x, 0) == x
  {
    assert x % M32 == x;
  }

  lemma OrBySome(x: nat, r: nat)
    requires x < M32 && 0 < r < 32
    ensures Or(Shr(x, r), Shl32(x, 32 - r)) == RotateRight(x, r)
  {
    hide Or, Pow2, Shr, Shl32, High, Low, Up;
    ShrIsDivision(x, r);
    Shl32IsProduct(x, 32 - r);
    Cut(x, r);
    OrDisjoint(High(x, r), Low(x, r), 32 - r);
  }

  /** The two shifted parts of the source make a rotation. */
  lemma OrRotates(x: nat, r: nat)
    requires x < M32 && r < 32
    ensures Or(Shr(x, r), Shl32(x, (32 - r) % 32)) == RotateRight(x, r)
  {
    hide Or, Shr, Shl32, RotateRight;
    if r == 0 {
      OrByNone(x);
    } else {
      OrBySome(x, r);
    }
  }

  /** Rotating by a known amount loses nothing. */
  lemma RotateInjective(x: nat, y: nat, r: nat)
    requires x < M32 && y < M32 && r < 32 && RotateRight(x, r) == RotateRight(y, r)
    ensures x == y
  {
    if r == 0 {
      RotateByNone(x);
      RotateByNone(y);
    } else {
      hide Pow2, High, Low, Up;
      Cut(x, r);
      Cut(y, r);
      Parts(High(x, r), Low(x, r), High(y, r), Low(y, r), 32 - r);
    }
  }

  lemma Parts(hi: nat, lo: nat, hi': nat, lo': nat, k: nat)
    requires hi < Pow2(k) && hi' < Pow2(k) && hi + Up(lo, k) == hi' + Up(lo', k)
    ensures hi == hi' && lo == lo'
  {
    var q := Pow2(k);
    DivModUnique(hi + lo * q, lo, hi, q);
    DivModUnique(hi + lo * q, lo', hi', q);
  }

  lemma RotateBound(x: nat, r: nat)
    requires x < M32 && r < 32
    ensures RotateRight(x, r) < M32
  {
    if r == 0 {
      RotateByNone(x);
    } else {
      hide Pow2, High, Low, Up;
      Cut(x, r);
    }
  }

  // ----- Exclusive-or with a shifted copy -----

  lemma {:induction false} XorShr(a: nat, b: nat, k: nat)
    ensures Shr(Xor(a, b), k) == Xor(Shr(a, k), Shr(b, k))
    decreases k
  {
    if k > 0 {
      XorHalf(a, b);
      XorShr(a / 2, b / 2, k - 1);
    }
  }

  lemma XorHalf(a: nat, b: nat)
    ensures Xor(a, b) / 2 == Xor(a / 2, b / 2) && Xor(a, b) % 2 == (a + b) % 2
  {
  }

  /** Equal exclusive-ors may be rearranged. */
  lemma {:induction false} XorSwap(a: nat, b: nat, c: nat, d: nat)
    requires Xor(a, b) == Xor(c, d)
    ensures Xor(a, c) == Xor(b, d)
    decreases a + b + c + d
  {
    if a + b + c + d > 0 {
      XorHalf(a, b);
      XorHalf(c, d);
      XorHalf(a, c);
      XorHalf(b, d);
      XorSwap(a / 2, b / 2, c / 2, d / 2);
      SwapParity(a, b, c, d);
    }
  }

  lemma SwapParity(a: nat, b: nat, c: nat, d: nat)
    requires (a + b) % 2 == (c + d) % 2
    ensures (a + c) % 2 == (b + d) % 2
  {
  }

  lemma {:induction false} XorNothing(a: nat, b: nat)
    requires Xor(a, b) == 0
    ensures a == b
    decreases a + b
  {
    if a + b > 0 {
      XorHalf(a, b);
      XorNothing(a / 2, b / 2);
    }
  }

  lemma {:induction false} ShrShrinks(x: nat, k: nat)
    requires k > 0 && x > 0
    ensures Shr(x, k) < x
    decreases k
  {
    if k > 1 && x / 2 > 0 {
      ShrShrinks(x / 2, k - 1);
    } else if k > 1 {
      ShrOfZero(k - 1);
    }
  }

  lemma {:induction false} ShrOfZero(k: nat)
    ensures Shr(0, k) == 0
    decreases k
  {
    if k > 0 {
      ShrOfZero(k - 1);
    }
  }

  /** Mixing a word with its own right shift loses nothing. */
  lemma XorShiftInjective(x: nat, y: nat, k: nat)
    requires k > 0 && Xor(x, Shr(x, k)) == Xor(y, Shr(y, k))
    ensures x == y
  {
    hide Shr;
    XorSwap(x, Shr(x, k), y, Shr(y, k));
    XorShr(x, y, k);
    var d := Xor(x, y);
    if d > 0 {
      ShrShrinks(d, k);
    }
    XorNothing(x, y);
  }

  lemma {:induction false} XorComm(a: nat, b: nat)
    ensures Xor(a, b) == Xor(b, a)
    decreases a + b
  {
    if a + b > 0 {
      XorComm(a / 2, b / 2);
    }
  }

  lemma {:induction false} XorZero(a: nat)
    ensures Xor(a, 0) == a
    decreases a
  {
    if a > 0 {
      XorZero(a / 2);
    }
  }

  lemma {:induction false} ShrShr(x: nat, a: nat, b: nat)
    ensures Shr(Shr(x, a), b) == Shr(x, a + b)
    decreases a
  {
    if a > 0 {
      ShrShr(x / 2, a - 1, b);
    }
  }

  lemma HighOfHigh(x: nat, a: nat, b: nat)
    ensures High(High(x, a), b) == High(x, a + b)
  {
    hide High, Shr;
    ShrIsDivision(x, a);
    ShrIsDivision(Shr(x, a), b);
    ShrIsDivision(x, a + b);
    ShrShr(x, a, b);
  }

  lemma LowAndHigh(x: nat, k: nat)
    ensures x == Up(High(x, k), k) + Low(x, k)
  {
    var p := Pow2(k);
    assert x == (x / p) * p + x % p;
  }

  lemma {:induction false} ShrSmaller(x: nat, k: nat)
    ensures Shr(x, k) <= x
    decreases k
  {
    if k > 0 {
      ShrSmaller(x / 2, k - 1);
    }
  }

  lemma HighBound(x: nat, k: nat)
    ensures High(x, k) <= x
  {
    hide High, Shr;
    ShrIsDivision(x, k);
    ShrSmaller(x, k);
  }

  lemma {:induction false} ShrAll(x: nat, k: nat)
    requires x < Pow2(k)
    ensures Shr(x, k) == 0
    decreases k
  {
    if k > 0 {
      ShrAll(x / 2, k - 1);
    }
  }

  /** Shifting a word mixed with its own shift mixes the shifted word the same way. */
  lemma MixHigh(x: nat, s: nat, k: nat)
    ensures High(Xor(x, High(x, s)), k) == Xor(High(x, k), High(High(x, k), s))
  {
    hide High, Shr, Xor;
    ShrIsDivision(x, s);
    ShrIsDivision(x, k);
    ShrIsDivision(Xor(x, Shr(x, s)), k);
    XorShr(x, Shr(x, s), k);
    ShrIsDivision(Shr(x, k), s);
    ShrShr(x, s, k);
    ShrShr(x, k, s);
  }

  /** Mixing leaves the top bits of a word alone. */
  lemma TopStays(x: nat, s: nat, k: nat, n: nat)
    requires x < Pow2(n) && n <= s + k
    ensures High(Xor(x, High(x, s)), k) == High(x, k)
  {
    hide High, Shr, Xor;
    MixHigh(x, s, k);
    HighOfHigh(x, k, s);
    ShrIsDivision(x, k + s);
    ShrAll(x, n);
    ShrShr(x, n, k + s - n);
    ShrSmaller(0, k + s - n);
    XorZero(High(x, k));
  }
}
