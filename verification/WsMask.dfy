/**
 WebSocket masking (section 5.3 of RFC 6455): the 32-byte, 8-byte and scalar loops of the source
 against the byte-by-byte definition.
 */
module WsMask {
  import opened Arith
  import opened Bits
  import opened Endian
  import opened Shifts

  /** Octet i of the payload is combined with octet i mod 4 of the key; `offset` is the payload index
      of `s[0]`. */
  function Masked(s: seq<byte>, key: seq<byte>, offset: nat): (m: seq<byte>)
    requires |key| == 4
    ensures |m| == |s|
  {
    seq(|s|, i requires 0 <= i < |s| => XorByte(s[i], key[(offset + i) % 4]))
  }

  // ----- What masking means -----

  /** Unmasking is masking again. */
  lemma MaskInvolution(s: seq<byte>, key: seq<byte>, offset: nat)
    requires |key| == 4
    ensures Masked(Masked(s, key, offset), key, offset) == s
  {
    forall i | 0 <= i < |s|
      ensures Masked(Masked(s, key, offset), key, offset)[i] == s[i]
    {
      XorByteInvolution(s[i], key[(offset + i) % 4]);
    }
  }

  /** A payload masked in two calls, the second resuming at the matching offset. */
  lemma MaskSplit(s: seq<byte>, t: seq<byte>, key: seq<byte>, offset: nat)
    requires |key| == 4
    ensures Masked(s + t, key, offset) == Masked(s, key, offset) + Masked(t, key, offset + |s|)
  {
  }

  // ----- Wide words -----

  /** The 32-bit pattern repeated `n` times across a wider word. */
  function Broadcast(pattern: nat, n: nat): nat
  {
    if n == 0 then 0 else pattern + M32 * Broadcast(pattern, n - 1)
  }

  function XorSeq(s: seq<byte>, t: seq<byte>): (r: seq<byte>)
    requires |s| == |t|
    ensures |r| == |s|
  {
    seq(|s|, i requires 0 <= i < |s| => XorByte(s[i], t[i]))
  }

  function Repeat(s: seq<byte>, n: nat): (r: seq<byte>)
    ensures |r| == n * |s|
  {
    if n == 0 then [] else s + Repeat(s, n - 1)
  }

  /** One wide exclusive-or is a bytewise exclusive-or. */
  lemma {:induction false} WideXor(s: seq<byte>, t: seq<byte>)
    requires |s| == |t|
    ensures LoadWord(XorSeq(s, t)) == Xor(LoadWord(s), LoadWord(t))
    decreases |s|
  {
    if s != [] {
      WideXor(s[1..], t[1..]);
      XorLane8(s[0], LoadWord(s[1..]), t[0], LoadWord(t[1..]));
      assert XorSeq(s, t)[1..] == XorSeq(s[1..], t[1..]);
    }
  }

  lemma LoadFour(rot: seq<byte>, rest: seq<byte>)
    requires |rot| == 4
    ensures LoadWord(rot + rest) == LoadWord(rot) + M32 * LoadWord(rest)
  {
    var r1, r2, r3 := rot[1..], rot[2..], rot[3..];
    assert r1[1..] == r2 && r2[1..] == r3 && r3[1..] == [];
    assert (rot + rest)[1..] == r1 + rest && (r1 + rest)[1..] == r2 + rest;
    assert (r2 + rest)[1..] == r3 + rest && (r3 + rest)[1..] == rest;
    assert LoadWord(r3 + rest) == rot[3] + 256 * LoadWord(rest);
    assert LoadWord(r2 + rest) == rot[2] + 256 * LoadWord(r3 + rest);
    assert LoadWord(r1 + rest) == rot[1] + 256 * LoadWord(r2 + rest);
    assert LoadWord(r3) == rot[3];
    assert LoadWord(r2) == rot[2] + 256 * LoadWord(r3);
    assert LoadWord(r1) == rot[1] + 256 * LoadWord(r2);
  }

  lemma {:induction false} BroadcastLoads(rot: seq<byte>, n: nat)
    requires |rot| == 4
    ensures Broadcast(LoadWord(rot), n) == LoadWord(Repeat(rot, n))
    decreases n
  {
    if n > 0 {
      BroadcastLoads(rot, n - 1);
      LoadFour(rot, Repeat(rot, n - 1));
    }
  }

  lemma {:induction false} RepeatAt(rot: seq<byte>, n: nat, i: nat)
    requires |rot| == 4 && i < 4 * n
    ensures Repeat(rot, n)[i] == rot[i % 4]
    decreases n
  {
    if i >= 4 {
      RepeatAt(rot, n - 1, i - 4);
    }
  }

  /** A block of `n` patterns combined with the broadcast pattern in one wide operation. */
  lemma BlockXor(block: seq<byte>, rot: seq<byte>, n: nat)
    requires |rot| == 4 && |block| == 4 * n
    ensures StoreWord(|block|, Xor(LoadWord(block), Broadcast(LoadWord(rot), n))) == Masked(block, rot, 0)
  {
    var keys := Repeat(rot, n);
    BroadcastLoads(rot, n);
    WideXor(block, keys);
    StoreLoad(XorSeq(block, keys));
    forall i | 0 <= i < |block| ensures XorSeq(block, keys)[i] == Masked(block, rot, 0)[i] {
      RepeatAt(rot, n, i);
    }
  }

  // ----- The 64-bit mask -----

  lemma LoadBound(s: seq<byte>)
    requires |s| == 4
    ensures LoadWord(s) < M32
  {
    var s1, s2, s3 := s[1..], s[2..], s[3..];
    assert s1[1..] == s2 && s2[1..] == s3 && s3[1..] == [];
    assert LoadWord(s3) == s[3];
    assert LoadWord(s2) == s[2] + 256 * LoadWord(s3);
    assert LoadWord(s1) == s[1] + 256 * LoadWord(s2);
  }

  /** `(pat << 32) | pat` is the pattern broadcast to 64 bits. */
  lemma Mask64(rot: seq<byte>)
    requires |rot| == 4
    ensures Or(M32 * LoadWord(rot), LoadWord(rot)) == Broadcast(LoadWord(rot), 2)
  {
    Pow2Known();
    LoadBound(rot);
    var p := LoadWord(rot);
    OrComm(Up(p, 32), p);
    OrDisjoint(p, p, 32);
    assert Broadcast(p, 1) == p;
    assert Broadcast(p, 2) == p + M32 * Broadcast(p, 1);
  }

  // ----- The source's loops -----

  function Rotated(key: seq<byte>, offset: nat): (rot: seq<byte>)
    requires |key| == 4
    ensures |rot| == 4
  {
    [key[offset % 4], key[(offset + 1) % 4], key[(offset + 2) % 4], key[(offset + 3) % 4]]
  }

  lemma RotatedAt(key: seq<byte>, offset: nat, i: nat)
    requires |key| == 4
    ensures Rotated(key, offset)[i % 4] == key[(offset + i) % 4]
  {
  }

  /** Masking a block with the rotated pattern is masking it at its offset. */
  lemma RotatedBlock(block: seq<byte>, key: seq<byte>, offset: nat)
    requires |key| == 4
    ensures Masked(block, Rotated(key, offset), 0) == Masked(block, key, offset)
  {
    forall i | 0 <= i < |block|
      ensures Masked(block, Rotated(key, offset), 0)[i] == Masked(block, key, offset)[i]
    {
      RotatedAt(key, offset, i);
    }
  }

  /** Loads `4*n` bytes as one word, combines it with the broadcast pattern and stores it back. */
  method XorBlock(data: array<byte>, i: nat, n: nat, key: seq<byte>, offset: nat, mask: nat)
    requires |key| == 4 && i + 4 * n <= data.Length
    requires mask == Broadcast(LoadWord(Rotated(key, offset)), n)
    modifies data
    ensures data[i..i + 4 * n] == Masked(old(data[i..i + 4 * n]), key, offset)
    ensures data[..i] == old(data[..i]) && data[i + 4 * n..] == old(data[i + 4 * n..])
  {
    var word := LoadWord(data[i..i + 4 * n]);
    var bytes := StoreWord(4 * n, Xor(word, mask));
    BlockXor(data[i..i + 4 * n], Rotated(key, offset), n);
    RotatedBlock(data[i..i + 4 * n], key, offset);
    forall k | 0 <= k < 4 * n {
      data[i + k] := bytes[k];
    }
    assert data[i..i + 4 * n] == bytes;
  }

  lemma SameRotation(key: seq<byte>, offset: nat, i: nat)
    requires |key| == 4 && i % 4 == 0
    ensures Rotated(key, offset) == Rotated(key, offset + i)
  {
  }

  /** The bytes before `i` are masked, the others are untouched. */
  ghost predicate MaskedUpTo(now: seq<byte>, was: seq<byte>, i: nat, key: seq<byte>, offset: nat)
    requires |key| == 4
  {
    && |now| == |was| && i <= |now|
    && now[..i] == Masked(was[..i], key, offset)
    && now[i..] == was[i..]
  }

  /** One block operation inside either wide loop. */
  method MaskBlock(data: array<byte>, i: nat, n: nat, key: seq<byte>, offset: nat, mask: nat, ghost was: seq<byte>)
    requires |key| == 4 && i + 4 * n <= data.Length
    requires mask == Broadcast(LoadWord(Rotated(key, offset + i)), n)
    requires MaskedUpTo(data[..], was, i, key, offset)
    modifies data
    ensures MaskedUpTo(data[..], was, i + 4 * n, key, offset)
  {
    var e := i + 4 * n;
    assert data[i..e] == was[i..e] by {
      assert data[i..e] == data[..][i..][..4 * n] && was[i..e] == was[i..][..4 * n];
    }
    assert data[e..] == was[e..] by {
      assert data[e..] == data[..][i..][4 * n..] && was[e..] == was[i..][4 * n..];
    }
    XorBlock(data, i, n, key, offset + i, mask);
    MaskSplit(was[..i], was[i..e], key, offset);
    assert was[..e] == was[..i] + was[i..e];
    assert data[..][..e] == data[..i] + data[i..e];
  }

  method MaskVectors(data: array<byte>, len: nat, key: seq<byte>, keyOffset: nat) returns (i: nat)
    requires |key| == 4 && len <= data.Length
    modifies data
    ensures i <= len && MaskedUpTo(data[..], old(data[..]), i, key, keyOffset)
  {
    i := 0;
    var vkey := Broadcast(LoadWord(Rotated(key, keyOffset)), 8);
    while i + 32 <= len
      invariant i <= len && Rotated(key, keyOffset + i) == Rotated(key, keyOffset)
      invariant MaskedUpTo(data[..], old(data[..]), i, key, keyOffset)
    {
      MaskBlock(data, i, 8, key, keyOffset, vkey, old(data[..]));
      SameRotation(key, keyOffset + i, 32);
      i := i + 32;
    }
  }

  method PatternMask(key: seq<byte>, offset: nat) returns (mask64: nat)
    requires |key| == 4
    ensures mask64 == Broadcast(LoadWord(Rotated(key, offset)), 2)
  {
    var pat := LoadWord(Rotated(key, offset));
    Mask64(Rotated(key, offset));
    mask64 := Or(M32 * pat, pat);
  }

  method MaskWords(data: array<byte>, len: nat, key: seq<byte>, keyOffset: nat, start: nat, ghost was: seq<byte>)
    returns (i: nat)
    requires |key| == 4 && start <= len <= data.Length
    requires MaskedUpTo(data[..], was, start, key, keyOffset)
    modifies data
    ensures i <= len && MaskedUpTo(data[..], was, i, key, keyOffset)
  {
    i := start;
    var mask64 := PatternMask(key, keyOffset + i);
    while i + 8 <= len
      invariant start <= i <= len && mask64 == Broadcast(LoadWord(Rotated(key, keyOffset + i)), 2)
      invariant MaskedUpTo(data[..], was, i, key, keyOffset)
    {
      MaskBlock(data, i, 2, key, keyOffset, mask64, was);
      SameRotation(key, keyOffset + i, 8);
      i := i + 8;
    }
  }

  method MaskBytes(data: array<byte>, len: nat, key: seq<byte>, keyOffset: nat, start: nat, ghost was: seq<byte>)
    requires |key| == 4 && start <= len <= data.Length
    requires MaskedUpTo(data[..], was, start, key, keyOffset)
    modifies data
    ensures MaskedUpTo(data[..], was, len, key, keyOffset)
  {
    var i := start;
    while i < len
      invariant start <= i <= len
      invariant MaskedUpTo(data[..], was, i, key, keyOffset)
    {
      assert data[i] == data[..][i..][0] && was[i] == was[i..][0];
      ghost var before := data[..];
      data[i] := XorByte(data[i], key[(keyOffset + i) % 4]);
      assert data[..][..i + 1] == before[..i] + [data[i]] && was[..i + 1] == was[..i] + [was[i]];
      assert data[..][i + 1..] == before[i..][1..] && was[i + 1..] == was[i..][1..];
      i := i + 1;
    }
  }

  /** `ws_mask`: for every length, key and offset, with or without the vector path, the first `len`
      bytes are masked and nothing else changes. */
  method Mask(data: array<byte>, len: nat, key: seq<byte>, keyOffset: nat, avx2: bool)
    requires |key| == 4 && len <= data.Length
    modifies data
    ensures data[..len] == Masked(old(data[..len]), key, keyOffset)
    ensures data[len..] == old(data[len..])
  {
    ghost var was := data[..];
    var i := 0;
    if len == 0 {
      return;
    }
    if avx2 && len >= 32 {
      i := MaskVectors(data, len, key, keyOffset);
    }
    if i + 8 <= len {
      i := MaskWords(data, len, key, keyOffset, i, was);
    }
    MaskBytes(data, len, key, keyOffset, i, was);
    assert data[..][..len] == data[..len] && data[..][len..] == data[len..];
  }
}
