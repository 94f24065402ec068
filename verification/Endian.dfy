/**
 Words in memory: `memcpy` between bytes and words on a little-endian host, and the byte swaps
 that turn them into network order.
 */
module Endian {
  import opened Arith
  import opened Bits

  /** The word that `memcpy` from these bytes yields on a little-endian host. */
  function LoadWord(s: seq<byte>): nat
  {
    if s == [] then 0 else s[0] + 256 * LoadWord(s[1..])
  }

  /** The bytes that `memcpy` of an `n`-byte word stores. */
  function StoreWord(n: nat, x: nat): (s: seq<byte>)
    ensures |s| == n
  {
    if n == 0 then [] else [x % 256] + StoreWord(n - 1, x / 256)
  }

  /** The value of bytes in network order, most significant first. */
  function BigEndian(s: seq<byte>): nat
  {
    if s == [] then 0 else 256 * BigEndian(s[..|s| - 1]) + s[|s| - 1]
  }

  function Reverse(s: seq<byte>): (r: seq<byte>)
    ensures |r| == |s|
    ensures forall i :: 0 <= i < |s| ==> r[i] == s[|s| - 1 - i]
  {
    if s == [] then [] else [s[|s| - 1]] + Reverse(s[..|s| - 1])
  }

  /** The bytes of `x` in network order. */
  function NetworkBytes(n: nat, x: nat): (s: seq<byte>)
    ensures |s| == n
  {
    Reverse(StoreWord(n, x))
  }

  // ----- Loads and stores -----

  lemma SplitByte(lo: byte, hi: nat)
    ensures (lo + 256 * hi) % 256 == lo && (lo + 256 * hi) / 256 == hi
  {
  }

  lemma {:induction false} StoreLoad(s: seq<byte>)
    ensures StoreWord(|s|, LoadWord(s)) == s
    decreases |s|
  {
    if s != [] {
      StoreLoad(s[1..]);
      SplitByte(s[0], LoadWord(s[1..]));
    }
  }

  function Pow256(n: nat): (p: nat)
    ensures p >= 1
  {
    if n == 0 then 1 else 256 * Pow256(n - 1)
  }

  lemma {:induction false} LoadStore(n: nat, x: nat)
    requires x < Pow256(n)
    ensures LoadWord(StoreWord(n, x)) == x
    decreases n
  {
    if n > 0 {
      LoadStore(n - 1, x / 256);
      assert StoreWord(n, x)[1..] == StoreWord(n - 1, x / 256);
    }
  }

  lemma {:induction false} BigEndianBound(s: seq<byte>)
    ensures BigEndian(s) < Pow256(|s|)
    decreases |s|
  {
    if s != [] {
      BigEndianBound(s[..|s| - 1]);
    }
  }

  lemma Pow256Known()
    ensures Pow256(2) == 0x1_0000 && Pow256(8) == M64
  {
    assert Pow256(4) == 0x1_0000_0000;
  }

  /** Network order is host order reversed. */
  lemma {:induction false} BigEndianReverse(s: seq<byte>)
    ensures BigEndian(s) == LoadWord(Reverse(s))
    decreases |s|
  {
    if s != [] {
      var init := s[..|s| - 1];
      BigEndianReverse(init);
      assert Reverse(s)[1..] == Reverse(init);
    }
  }

  lemma ReverseReverse(s: seq<byte>)
    ensures Reverse(Reverse(s)) == s
  {
  }

  /** Writing a number in network order and reading it back. */
  lemma NetworkRoundTrip(n: nat, x: nat)
    requires x < Pow256(n)
    ensures BigEndian(NetworkBytes(n, x)) == x
  {
    BigEndianReverse(NetworkBytes(n, x));
    ReverseReverse(StoreWord(n, x));
    LoadStore(n, x);
  }

  /** Reading bytes in network order and writing the number back. */
  lemma NetworkBytesUnique(s: seq<byte>)
    ensures NetworkBytes(|s|, BigEndian(s)) == s
  {
    BigEndianReverse(s);
    StoreLoad(Reverse(s));
    ReverseReverse(s);
  }

  // ----- The byte swaps -----

  function ByteSwap16(x: nat): nat
    requires x < 0x1_0000
  {
    (x / 0x100) + (x % 0x100) * 0x100
  }

  /** The portable form of the source: each byte masked out and shifted to the mirrored place. */
  function ByteSwap64(x: nat): nat
    requires x < M64
  {
    (x / 0x100_0000_0000_0000) % 0x100
    + ((x / 0x1_0000_0000_0000) % 0x100) * 0x100
    + ((x / 0x100_0000_0000) % 0x100) * 0x1_0000
    + ((x / 0x1_0000_0000) % 0x100) * 0x100_0000
    + ((x / 0x100_0000) % 0x100) * 0x1_0000_0000
    + ((x / 0x1_0000) % 0x100) * 0x100_0000_0000
    + ((x / 0x100) % 0x100) * 0x1_0000_0000_0000
    + (x % 0x100) * 0x100_0000_0000_0000
  }

  /** One more byte below a word. */
  function Below(lo: byte, hi: nat): nat { lo + 256 * hi }

  function Eight(b0: byte, b1: byte, b2: byte, b3: byte, b4: byte, b5: byte, b6: byte, b7: byte): nat
  {
    Below(b0, Below(b1, Below(b2, Below(b3, Below(b4, Below(b5, Below(b6, Below(b7, 0))))))))
  }

  lemma LoadFourThen(s: seq<byte>)
    requires |s| >= 4
    ensures LoadWord(s) == Below(s[0], Below(s[1], Below(s[2], Below(s[3], LoadWord(s[4..])))))
  {
    assert s[1..][1..] == s[2..] && s[2..][1..] == s[3..] && s[3..][1..] == s[4..];
    assert LoadWord(s[3..]) == Below(s[3], LoadWord(s[4..]));
    assert LoadWord(s[2..]) == Below(s[2], LoadWord(s[3..]));
    assert LoadWord(s[1..]) == Below(s[1], LoadWord(s[2..]));
  }

  lemma LoadEight(s: seq<byte>)
    requires |s| == 8
    ensures LoadWord(s) == Eight(s[0], s[1], s[2], s[3], s[4], s[5], s[6], s[7])
  {
    LoadFourThen(s);
    LoadFourThen(s[4..]);
    assert s[4..][4..] == [];
  }

  /** `net_to_host_16` after `memcpy` reads network order. */
  lemma NetToHost16(s: seq<byte>)
    requires |s| == 2
    ensures LoadWord(s) < 0x1_0000 && ByteSwap16(LoadWord(s)) == BigEndian(s)
  {
    assert s[1..][1..] == [] && LoadWord(s[1..]) == s[1];
    assert s[..1][..0] == [] && BigEndian(s[..1]) == s[0];
    SplitByte(s[0], s[1]);
  }

  /** `net_to_host_64` after `memcpy` reads network order. */
  lemma NetToHost64(s: seq<byte>)
    requires |s| == 8
    ensures LoadWord(s) < M64 && ByteSwap64(LoadWord(s)) == BigEndian(s)
  {
    LoadEight(s);
    var t := Reverse(s);
    LoadEight(t);
    BigEndianReverse(s);
    assert t[0] == s[7] && t[1] == s[6] && t[2] == s[5] && t[3] == s[4];
    assert t[4] == s[3] && t[5] == s[2] && t[6] == s[1] && t[7] == s[0];
    SwapEight(s[0], s[1], s[2], s[3], s[4], s[5], s[6], s[7]);
  }

  lemma LowDigits(b0: byte, b1: byte, b2: byte, b3: byte, x4: nat)
    ensures var x := Below(b0, Below(b1, Below(b2, Below(b3, x4))));
      && x % 0x100 == b0 && (x / 0x100) % 0x100 == b1
      && (x / 0x1_0000) % 0x100 == b2 && (x / 0x100_0000) % 0x100 == b3
      && x / 0x1_0000_0000 == x4
  {
    hide Below;
    var x3 := Below(b3, x4);
    var x2 := Below(b2, x3);
    var x1 := Below(b1, x2);
    Peel(b0, x1);
    Peel(b1, x2);
    Peel(b2, x3);
    Peel(b3, x4);
    Peel2(b0, b1, x2);
    Peel3(b0, b1, b2, x3);
    Peel4(b0, b1, b2, b3, x4);
  }

  lemma Peel(b0: byte, x: nat)
    ensures Below(b0, x) % 0x100 == b0 && Below(b0, x) / 0x100 == x
  {
    DivModUnique(Below(b0, x), x, b0, 0x100);
  }

  lemma Peel2(b0: byte, b1: byte, x: nat)
    ensures Below(b0, Below(b1, x)) / 0x1_0000 == x
  {
    DivModUnique(Below(b0, Below(b1, x)), x, Below(b0, b1), 0x1_0000);
  }

  lemma Peel3(b0: byte, b1: byte, b2: byte, x: nat)
    ensures Below(b0, Below(b1, Below(b2, x))) / 0x100_0000 == x
  {
    DivModUnique(Below(b0, Below(b1, Below(b2, x))), x, Below(b0, Below(b1, b2)), 0x100_0000);
  }

  lemma Peel4(b0: byte, b1: byte, b2: byte, b3: byte, x: nat)
    ensures Below(b0, Below(b1, Below(b2, Below(b3, x)))) / 0x1_0000_0000 == x
  {
    DivModUnique(Below(b0, Below(b1, Below(b2, Below(b3, x)))), x, Below(b0, Below(b1, Below(b2, b3))), 0x1_0000_0000);
  }

  lemma SwapEight(b0: byte, b1: byte, b2: byte, b3: byte, b4: byte, b5: byte, b6: byte, b7: byte)
    ensures Eight(b0, b1, b2, b3, b4, b5, b6, b7) < M64
    ensures ByteSwap64(Eight(b0, b1, b2, b3, b4, b5, b6, b7)) == Eight(b7, b6, b5, b4, b3, b2, b1, b0)
  {
    var hi := Below(b4, Below(b5, Below(b6, Below(b7, 0))));
    var x := Eight(b0, b1, b2, b3, b4, b5, b6, b7);
    LowDigits(b0, b1, b2, b3, hi);
    LowDigits(b4, b5, b6, b7, 0);
    HighQuotients(x);
  }

  lemma HighQuotients(x: nat)
    ensures x / 0x100_0000_0000 == (x / 0x1_0000_0000) / 0x100
    ensures x / 0x1_0000_0000_0000 == (x / 0x1_0000_0000) / 0x1_0000
    ensures x / 0x100_0000_0000_0000 == (x / 0x1_0000_0000) / 0x100_0000
  {
  }

  /** `host_to_net` before `memcpy` writes network order. */
  lemma HostToNet16(x: nat)
    requires x < 0x1_0000
    ensures ByteSwap16(x) < 0x1_0000 && StoreWord(2, ByteSwap16(x)) == NetworkBytes(2, x)
  {
    var s := NetworkBytes(2, x);
    Pow256Known();
    NetworkRoundTrip(2, x);
    Swap16Inverse(s);
  }

  lemma Swap16Inverse(s: seq<byte>)
    requires |s| == 2
    ensures BigEndian(s) < 0x1_0000 && StoreWord(2, ByteSwap16(BigEndian(s))) == s
  {
    var t := Reverse(s);
    ReverseReverse(s);
    BigEndianReverse(s);
    BigEndianReverse(t);
    NetToHost16(t);
    StoreLoad(s);
  }

  lemma HostToNet64(x: nat)
    requires x < M64
    ensures ByteSwap64(x) < M64 && StoreWord(8, ByteSwap64(x)) == NetworkBytes(8, x)
  {
    var s := NetworkBytes(8, x);
    Pow256Known();
    NetworkRoundTrip(8, x);
    var t := Reverse(s);
    ReverseReverse(s);
    BigEndianReverse(s);
    BigEndianReverse(t);
    NetToHost64(t);
    NetToHost64(s);
    StoreLoad(s);
  }
}
