/**
 `base64_encode` (section 4 of RFC 4648), with a decoder that inverts it.
 */
module Base64 {
  import opened Arith
  import opened Bits
  import opened Seqs
  import opened Wrappers

  const PAD: byte := 61

  /** The alphabet `A-Z a-z 0-9 + /`: the character of a 6-bit value. */
  function Char(d: nat): (c: byte)
    requires d < 64
    ensures Value(c) == Some(d) && c != PAD
  {
    if d < 26 then 65 + d else if d < 52 then 71 + d else if d < 62 then d - 4 else if d == 62 then 43 else 47
  }

  /** The value of a character. */
  function Value(c: byte): (d: Option<nat>)
    ensures d.Some? ==> d.value < 64
  {
    if 65 <= c <= 90 then Some(c - 65)
    else if 97 <= c <= 122 then Some(c - 71)
    else if 48 <= c <= 57 then Some(c + 4)
    else if c == 43 then Some(62)
    else if c == 47 then Some(63)
    else None
  }

  lemma CharOfValue(c: byte)
    requires Value(c).Some?
    ensures Char(Value(c).value) == c && c != PAD
  {
  }

  // ----- Encoding -----

  /** The 24 bits of three bytes. */
  function Word(a: byte, b: byte, c: byte): (v: nat)
    ensures v < 0x100_0000
  {
    (a * 256 + b) * 256 + c
  }

  /** The four characters of a 24-bit word. */
  function Chars(v: nat): (t: seq<byte>)
    ensures |t| == 4
  {
    [Char((v / 0x4_0000) % 64), Char((v / 0x1000) % 64), Char((v / 64) % 64), Char(v % 64)]
  }

  function One(a: byte): (t: seq<byte>)
    ensures |t| == 4
  {
    Chars(Word(a, 0, 0))[..2] + [PAD, PAD]
  }

  function Two(a: byte, b: byte): (t: seq<byte>)
    ensures |t| == 4
  {
    Chars(Word(a, b, 0))[..3] + [PAD]
  }

  function Three(a: byte, b: byte, c: byte): (t: seq<byte>)
    ensures |t| == 4
  {
    Chars(Word(a, b, c))
  }

  /** The characters that encode `s`: four for every three bytes, the last group padded. */
  function Encoded(s: seq<byte>): (t: seq<byte>)
    ensures |t| == 4 * ((|s| + 2) / 3)
  {
    if |s| == 0 then []
    else if |s| == 1 then One(s[0])
    else if |s| == 2 then Two(s[0], s[1])
    else
      assert (|s| + 2) / 3 == (|s| - 3 + 2) / 3 + 1;
      Three(s[0], s[1], s[2]) + Encoded(s[3..])
  }

  lemma EncodedStep(s: seq<byte>, i: nat)
    requires i + 3 <= |s|
    ensures Encoded(s[i..]) == Three(s[i], s[i + 1], s[i + 2]) + Encoded(s[i + 3..])
  {
    assert s[i..][3..] == s[i + 3..];
  }

  lemma EncodedEnd(s: seq<byte>, i: nat)
    requires i <= |s| < i + 3
    ensures |s| == i ==> Encoded(s[i..]) == []
    ensures |s| == i + 1 ==> Encoded(s[i..]) == One(s[i])
    ensures |s| == i + 2 ==> Encoded(s[i..]) == Two(s[i], s[i + 1])
  {
  }

  /** The alphabet, range by range: 'A' to 'Z', 'a' to 'z', '0' to '9', '+' and '/'. */
  lemma Alphabet(d: nat)
    requires d < 64
    ensures d < 26 ==> Char(d) as int == 'A' as int + d
    ensures 26 <= d < 52 ==> Char(d) as int == 'a' as int + d - 26
    ensures 52 <= d < 62 ==> Char(d) as int == '0' as int + d - 52
    ensures d == 62 ==> Char(d) as int == '+' as int
    ensures d == 63 ==> Char(d) as int == '/' as int
  {
  }

  /** Three bytes, most significant bit first, are four characters of six bits each. */
  lemma GroupOfThree(a: byte, b: byte, c: byte) returns (v0: nat, v1: nat, v2: nat, v3: nat)
    ensures v0 < 64 && v1 < 64 && v2 < 64 && v3 < 64
    ensures Three(a, b, c) == [Char(v0), Char(v1), Char(v2), Char(v3)]
    ensures v0 * 0x4_0000 + v1 * 0x1000 + v2 * 64 + v3 == 0x1_0000 * (a as int) + 256 * (b as int) + c as int
  {
    hide Char;
    var v := Word(a, b, c);
    v0, v1, v2, v3 := (v / 0x4_0000) % 64, (v / 0x1000) % 64, (v / 64) % 64, v % 64;
    SixBits(v);
  }

  lemma SixBits(v: nat)
    requires v < 0x100_0000
    ensures (v / 0x4_0000) % 64 * 0x4_0000 + (v / 0x1000) % 64 * 0x1000 + (v / 64) % 64 * 64 + v % 64 == v
  {
    var a, b, c := v / 64, v / 0x1000, v / 0x4_0000;
    assert a / 64 == b && b / 64 == c && c < 64;
    assert v == 64 * a + v % 64 && a == 64 * b + a % 64 && b == 64 * c + b % 64;
  }

  /** Four consecutive stores. */
  method Store(out: array<byte>, o: nat, four: seq<byte>)
    requires o + 4 <= out.Length && |four| == 4
    modifies out
    ensures out[..o + 4] == old(out[..o]) + four
    ensures out[o + 4..] == old(out[o + 4..])
  {
    out[o] := four[0];
    out[o + 1] := four[1];
    out[o + 2] := four[2];
    out[o + 3] := four[3];
  }

  /** `base64_encode`: exactly the encoding and a NUL, or nothing when it does not fit; what lies behind is not
      touched. */
  method Encode(input: seq<byte>, out: array<byte>) returns (n: nat)
    modifies out
    ensures n == if out.Length < |Encoded(input)| + 1 then 0 else |Encoded(input)|
    ensures out.Length < |Encoded(input)| + 1 ==> out[..] == old(out[..])
    ensures out.Length >= |Encoded(input)| + 1 ==>
      out[..n] == Encoded(input) && out[n] == 0 && out[n + 1..] == old(out[n + 1..])
  {
    hide Encoded, One, Two, Three;
    var need := 4 * ((|input| + 2) / 3);
    if out.Length < need + 1 {
      return 0;
    }
    ghost var all, was := Encoded(input), out[..];
    var o, i := 0, 0;
    assert input[0..] == input;
    assert out[..0] + Encoded(input[0..]) == all;
    while i + 3 <= |input|
      invariant 0 <= i <= |input| && 0 <= o <= need && o + |Encoded(input[i..])| == need
      invariant out[..o] + Encoded(input[i..]) == all
      invariant out[o..] == was[o..]
    {
      EncodedStep(input, i);
      var four := Three(input[i], input[i + 1], input[i + 2]);
      Regroup(out[..o], four, Encoded(input[i + 3..]));
      TailOf(out[..], was, o);
      Store(out, o, four);
      o, i := o + 4, i + 3;
    }
    EncodedEnd(input, i);
    TailOf(out[..], was, o);
    var rem := |input| - i;
    if rem == 1 {
      Store(out, o, One(input[i]));
      o := o + 4;
    } else if rem == 2 {
      Store(out, o, Two(input[i], input[i + 1]));
      o := o + 4;
    }
    assert out[..o] == all;
    TailOf(out[..], was, o);
    out[o] := 0;
    return o;
  }

  lemma TailOf(s: seq<byte>, t: seq<byte>, o: nat)
    requires o <= |s| == |t| && s[o..] == t[o..]
    ensures forall k {:trigger s[k..]} {:trigger t[k..]} :: o <= k <= |s| ==> s[k..] == t[k..]
  {
    forall k | o <= k <= |s| ensures s[k..] == t[k..] {
      assert s[k..] == s[o..][k - o..] && t[k..] == t[o..][k - o..];
    }
  }

  // ----- Decoding -----

  /** The bytes of a 24-bit word. */
  function Bytes(v: nat): (s: seq<byte>)
    ensures |s| == 3
  {
    [(v / 0x1_0000) % 256, (v / 256) % 256, v % 256]
  }

  function Digits(a: nat, b: nat, c: nat, d: nat): nat { ((a * 64 + b) * 64 + c) * 64 + d }

  /** The 24 bits of four characters. */
  function Values(t: seq<byte>): (v: Option<nat>)
    requires |t| == 4
  {
    var a, b, c, d := Value(t[0]), Value(t[1]), Value(t[2]), Value(t[3]);
    if a.None? || b.None? || c.None? || d.None? then None
    else Some(Digits(a.value, b.value, c.value, d.value))
  }

  /** The last group: its padding says how many bytes it stands for, and unused bits are zero. */
  function DecodeLast(t: seq<byte>): Option<seq<byte>>
    requires |t| == 4
  {
    if t[3] != PAD then
      var v := Values(t);
      if v.None? then None else Some(Bytes(v.value))
    else if t[2] != PAD then
      var v := Values(t[..3] + [Char(0)]);
      if v.None? || v.value % 256 != 0 then None else Some(Bytes(v.value)[..2])
    else
      var v := Values(t[..2] + [Char(0), Char(0)]);
      if v.None? || v.value % 0x1_0000 != 0 then None else Some(Bytes(v.value)[..1])
  }

  /** A strict decoder: whole groups, padding only at the end. */
  function Decode(t: seq<byte>): (s: Option<seq<byte>>)
  {
    if t == [] then Some([])
    else if |t| < 4 then None
    else if |t| == 4 then DecodeLast(t)
    else
      var v, rest := Values(t[..4]), Decode(t[4..]);
      if v.None? || rest.None? then None else Some(Bytes(v.value) + rest.value)
  }

  lemma SplitWord(v: nat)
    requires v < 0x100_0000
    ensures Digits((v / 0x4_0000) % 64, (v / 0x1000) % 64, (v / 64) % 64, v % 64) == v
  {
    var q1 := v / 64;
    var q2 := q1 / 64;
    var q3 := q2 / 64;
    DivModUnique(v, q2, (q1 % 64) * 64 + v % 64, 0x1000);
    DivModUnique(v, q3, ((q2 % 64) * 64 + q1 % 64) * 64 + v % 64, 0x4_0000);
    assert q3 < 64;
  }

  lemma JoinDigits(a: nat, b: nat, c: nat, d: nat)
    requires a < 64 && b < 64 && c < 64 && d < 64
    ensures var v := Digits(a, b, c, d);
      v < 0x100_0000 && (v / 0x4_0000) % 64 == a && (v / 0x1000) % 64 == b && (v / 64) % 64 == c && v % 64 == d
  {
    var v := Digits(a, b, c, d);
    DivModUnique(v, (a * 64 + b) * 64 + c, d, 64);
    DivModUnique((a * 64 + b) * 64 + c, a * 64 + b, c, 64);
    DivModUnique(v, a * 64 + b, c * 64 + d, 0x1000);
    DivModUnique(a * 64 + b, a, b, 64);
    DivModUnique(v, a, (b * 64 + c) * 64 + d, 0x4_0000);
  }

  lemma ValuesOfChars(v: nat)
    requires v < 0x100_0000
    ensures Values(Chars(v)) == Some(v) && Chars(v)[3] != PAD
  {
    SplitWord(v);
  }

  lemma WordBytes(a: byte, b: byte, c: byte)
    ensures Bytes(Word(a, b, c)) == [a, b, c]
  {
    var hi: nat := a * 256 + b;
    var v := Word(a, b, c);
    DivModUnique(v, hi, c, 256);
    DivModUnique(v, a, b * 256 + c, 0x1_0000);
    DivModUnique(hi, a, b, 256);
  }

  lemma LowBits(a: byte, b: byte)
    ensures Word(a, b, 0) % 256 == 0 && Word(a, b, 0) % 64 == 0
    ensures Word(a, 0, 0) % 0x1_0000 == 0 && Word(a, 0, 0) % 64 == 0 && (Word(a, 0, 0) / 64) % 64 == 0
  {
    var hi: nat := a * 256 + b;
    assert Word(a, b, 0) == 256 * hi;
    assert Word(a, 0, 0) == 0x1_0000 * a;
  }

  lemma ThreeDecodes(a: byte, b: byte, c: byte)
    ensures Values(Three(a, b, c)) == Some(Word(a, b, c)) && Bytes(Word(a, b, c)) == [a, b, c]
    ensures DecodeLast(Three(a, b, c)) == Some([a, b, c])
  {
    hide Chars, Values, Bytes, Word;
    ValuesOfChars(Word(a, b, c));
    WordBytes(a, b, c);
  }

  lemma TwoDecodes(a: byte, b: byte)
    ensures DecodeLast(Two(a, b)) == Some([a, b])
  {
    var v, t := Word(a, b, 0), Two(a, b);
    LowBits(a, b);
    ValuesOfChars(v);
    WordBytes(a, b, 0);
    assert t[..3] + [Char(0)] == Chars(v);
    hide Values, Bytes, Word, Value;
    assert t[3] == PAD && t[2] == Chars(v)[2] != PAD;
    assert [a, b, 0][..2] == [a, b];
  }

  lemma OneDecodes(a: byte)
    ensures DecodeLast(One(a)) == Some([a])
  {
    var v, t := Word(a, 0, 0), One(a);
    LowBits(a, 0);
    ValuesOfChars(v);
    WordBytes(a, 0, 0);
    assert t[..2] + [Char(0), Char(0)] == Chars(v);
    hide Values, Bytes, Word, Value;
    assert t[3] == PAD && t[2] == PAD;
    assert [a, 0, 0][..1] == [a];
  }

  /** The decoder recovers every input from its encoding. */
  lemma {:induction false} DecodeEncoded(s: seq<byte>)
    ensures Decode(Encoded(s)) == Some(s)
    decreases |s|
  {
    hide DecodeLast, Values, Bytes, One, Two, Three, Word;
    if |s| == 1 {
      OneDecodes(s[0]);
      assert s == [s[0]];
    } else if |s| == 2 {
      TwoDecodes(s[0], s[1]);
      assert s == [s[0], s[1]];
    } else if |s| >= 3 {
      var four, rest := Three(s[0], s[1], s[2]), Encoded(s[3..]);
      ThreeDecodes(s[0], s[1], s[2]);
      DecodeEncoded(s[3..]);
      assert Encoded(s) == four + rest;
      assert [s[0], s[1], s[2]] + s[3..] == s;
      if |s| == 3 {
        assert rest == [] && four + rest == four && s == [s[0], s[1], s[2]];
      } else {
        assert |rest| >= 4 && (four + rest)[..4] == four && (four + rest)[4..] == rest;
      }
    }
  }

  // ----- Every decodable text is an encoding -----

  lemma CharsOfValues(t: seq<byte>)
    requires |t| == 4 && Values(t).Some?
    ensures Values(t).value < 0x100_0000 && Chars(Values(t).value) == t
  {
    var a, b, c, d := Value(t[0]).value, Value(t[1]).value, Value(t[2]).value, Value(t[3]).value;
    JoinDigits(a, b, c, d);
    CharOfValue(t[0]);
    CharOfValue(t[1]);
    CharOfValue(t[2]);
    CharOfValue(t[3]);
    hide Digits, Char, Value;
    assert Chars(Values(t).value) == [t[0], t[1], t[2], t[3]];
  }

  lemma BytesWord(v: nat)
    requires v < 0x100_0000
    ensures Word(Bytes(v)[0], Bytes(v)[1], Bytes(v)[2]) == v
    ensures v % 256 == 0 ==> Bytes(v)[2] == 0
    ensures v % 0x1_0000 == 0 ==> Bytes(v)[1] == 0 && Bytes(v)[2] == 0
  {
    var q1 := v / 256;
    var q2 := q1 / 256;
    DivModUnique(v, q2, (q1 % 256) * 256 + v % 256, 0x1_0000);
    assert q2 < 256;
  }

  lemma LastIsEncoded(t: seq<byte>)
    requires |t| == 4 && DecodeLast(t).Some?
    ensures Encoded(DecodeLast(t).value) == t
  {
    hide Values, Bytes, Chars, Word, Char;
    var full := if t[3] != PAD then t else if t[2] != PAD then t[..3] + [Char(0)] else t[..2] + [Char(0), Char(0)];
    var v := Values(full).value;
    CharsOfValues(full);
    BytesWord(v);
    var b := Bytes(v);
    if t[3] != PAD {
      assert b[3..] == [] && t + [] == t;
    } else if t[2] != PAD {
      assert Word(b[0], b[1], 0) == v;
      assert full[..3] + [PAD] == t;
    } else {
      assert Word(b[0], 0, 0) == v;
      assert full[..2] + [PAD, PAD] == t;
    }
  }

  /** What the decoder accepts is the encoding of what it returns. */
  lemma {:induction false} EncodedDecode(t: seq<byte>)
    requires Decode(t).Some?
    ensures Encoded(Decode(t).value) == t
    decreases |t|
  {
    hide DecodeLast, Values, Bytes, Chars, Word;
    if |t| == 4 {
      LastIsEncoded(t);
    } else if |t| > 4 {
      var v, rest := Values(t[..4]).value, Decode(t[4..]).value;
      EncodedDecode(t[4..]);
      CharsOfValues(t[..4]);
      BytesWord(v);
      assert (Bytes(v) + rest)[3..] == rest;
      assert t[..4] + t[4..] == t;
    }
  }
}
