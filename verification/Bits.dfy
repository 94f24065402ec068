/**
 Bytes, and exclusive-or on natural numbers defined bit by bit.
 */
module Bits {
  import opened Arith

  type byte = x: int | 0 <= x < 256

  /** Bitwise exclusive-or of words of any width. */
  function Xor(a: nat, b: nat): (c: nat)
    decreases a + b
  {
    if a == 0 && b == 0 then 0 else (a + b) % 2 + 2 * Xor(a / 2, b / 2)
  }

  /** Bitwise or. */
  function Or(a: nat, b: nat): (c: nat)
    decreases a + b
  {
    if a == 0 && b == 0 then 0 else (if a % 2 == 1 || b % 2 == 1 then 1 else 0) + 2 * Or(a / 2, b / 2)
  }

  lemma {:induction false} XorBound(a: nat, b: nat, k: nat)
    requires a < Pow2(k) && b < Pow2(k)
    ensures Xor(a, b) < Pow2(k)
    decreases k
  {
    if a + b > 0 {
      XorBound(a / 2, b / 2, k - 1);
    }
  }

  lemma {:induction false} OrBound(a: nat, b: nat, k: nat)
    requires a < Pow2(k) && b < Pow2(k)
    ensures Or(a, b) < Pow2(k)
    decreases k
  {
    if a + b > 0 {
      OrBound(a / 2, b / 2, k - 1);
    }
  }

  /** Exclusive-or one bit at a time. */
  lemma XorCons(a: nat, hiA: nat, b: nat, hiB: nat)
    requires a < 2 && b < 2
    ensures Xor(a + 2 * hiA, b + 2 * hiB) == (a + b) % 2 + 2 * Xor(hiA, hiB)
  {
    Halves(a, hiA);
    Halves(b, hiB);
    Parity(a, hiA, b, hiB);
  }

  lemma Halves(a: nat, hi: nat)
    requires a < 2
    ensures (a + 2 * hi) / 2 == hi && (a + 2 * hi) % 2 == a
  {
  }

  lemma Parity(a: nat, hiA: nat, b: nat, hiB: nat)
    ensures ((a + 2 * hiA) + (b + 2 * hiB)) % 2 == (a + b) % 2
  {
  }

  /** Exclusive-or with one word twice gives the other back. */
  lemma {:induction false} XorInvolution(a: nat, b: nat)
    ensures Xor(Xor(a, b), b) == a
    decreases a + b
  {
    if a + b > 0 {
      var lo, hi := (a % 2 + b % 2) % 2, Xor(a / 2, b / 2);
      XorCons(a % 2, a / 2, b % 2, b / 2);
      XorCons(lo, hi, b % 2, b / 2);
      XorInvolution(a / 2, b / 2);
      ParityTwice(a % 2, b % 2);
    }
  }

  lemma ParityTwice(a: nat, b: nat)
    requires a < 2 && b < 2
    ensures ((a + b) % 2 + b) % 2 == a
  {
  }

  // ----- Lanes: the low bits and the rest do not mix -----

  lemma XorLane1(a: nat, hiA: nat, b: nat, hiB: nat)
    requires a < 2 && b < 2
    ensures Xor(a + 2 * hiA, b + 2 * hiB) == Xor(a, b) + 2 * Xor(hiA, hiB)
  {
    XorCons(a, hiA, b, hiB);
    XorCons(a, 0, b, 0);
  }

  lemma XorLane2Parts(a0: nat, a1: nat, hiA: nat, b0: nat, b1: nat, hiB: nat)
    requires a0 < 2 && a1 < 2 && b0 < 2 && b1 < 2
    ensures Xor((a0 + 2 * a1) + 4 * hiA, (b0 + 2 * b1) + 4 * hiB)
         == Xor(a0 + 2 * a1, b0 + 2 * b1) + 4 * Xor(hiA, hiB)
  {
    XorLane1(a0, a1 + 2 * hiA, b0, b1 + 2 * hiB);
    XorLane1(a1, hiA, b1, hiB);
    XorLane1(a0, a1, b0, b1);
  }

  lemma XorLane2(a: nat, hiA: nat, b: nat, hiB: nat)
    requires a < 4 && b < 4
    ensures Xor(a + 4 * hiA, b + 4 * hiB) == Xor(a, b) + 4 * Xor(hiA, hiB)
  {
    var a0, a1, b0, b1 := a % 2, a / 2, b % 2, b / 2;
    XorLane2Parts(a0, a1, hiA, b0, b1, hiB);
  }

  lemma XorLane4Parts(a0: nat, a1: nat, hiA: nat, b0: nat, b1: nat, hiB: nat)
    requires a0 < 4 && a1 < 4 && b0 < 4 && b1 < 4
    ensures Xor((a0 + 4 * a1) + 16 * hiA, (b0 + 4 * b1) + 16 * hiB)
         == Xor(a0 + 4 * a1, b0 + 4 * b1) + 16 * Xor(hiA, hiB)
  {
    XorLane2(a0, a1 + 4 * hiA, b0, b1 + 4 * hiB);
    XorLane2(a1, hiA, b1, hiB);
    XorLane2(a0, a1, b0, b1);
  }

  lemma XorLane4(a: nat, hiA: nat, b: nat, hiB: nat)
    requires a < 16 && b < 16
    ensures Xor(a + 16 * hiA, b + 16 * hiB) == Xor(a, b) + 16 * Xor(hiA, hiB)
  {
    var a0, a1, b0, b1 := a % 4, a / 4, b % 4, b / 4;
    XorLane4Parts(a0, a1, hiA, b0, b1, hiB);
  }

  lemma XorLane8Parts(a0: nat, a1: nat, hiA: nat, b0: nat, b1: nat, hiB: nat)
    requires a0 < 16 && a1 < 16 && b0 < 16 && b1 < 16
    ensures Xor((a0 + 16 * a1) + 256 * hiA, (b0 + 16 * b1) + 256 * hiB)
         == Xor(a0 + 16 * a1, b0 + 16 * b1) + 256 * Xor(hiA, hiB)
  {
    XorLane4(a0, a1 + 16 * hiA, b0, b1 + 16 * hiB);
    XorLane4(a1, hiA, b1, hiB);
    XorLane4(a0, a1, b0, b1);
  }

  /** Exclusive-or of wide words works byte by byte. */
  lemma XorLane8(a: nat, hiA: nat, b: nat, hiB: nat)
    requires a < 256 && b < 256
    ensures Xor(a + 256 * hiA, b + 256 * hiB) == Xor(a, b) + 256 * Xor(hiA, hiB)
  {
    var a0, a1, b0, b1 := a % 16, a / 16, b % 16, b / 16;
    XorLane8Parts(a0, a1, hiA, b0, b1, hiB);
  }

  /** Exclusive-or of bytes. */
  function XorByte(a: byte, b: byte): (c: byte)
    ensures c == Xor(a, b)
  {
    assert Pow2(8) == 256 by { Pow2Known(); }
    XorBound(a, b, 8);
    Xor(a, b)
  }

  lemma XorByteInvolution(a: byte, b: byte)
    ensures XorByte(XorByte(a, b), b) == a
  {
    XorInvolution(a, b);
  }
}
