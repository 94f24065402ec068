/**
 The WebSocket frame header (section 5.2 of RFC 6455): the parser and the client encoder of the
 source, and why they agree.
 */
module WsFrame {
  import opened Arith
  import opened Bits
  import opened Endian
  import opened Wrappers

  datatype Opcode = Continuation | Text | Binary | Close | Ping | Pong

  function Code(op: Opcode): (c: byte)
    ensures c < 16
  {
    match op
    case Continuation => 0
    case Text => 1
    case Binary => 2
    case Close => 8
    case Ping => 9
    case Pong => 10
  }

  /** The opcodes the parser lets through; the others are reserved. */
  function OpcodeOf(c: nat): (op: Option<Opcode>)
    ensures op.Some? ==> c < 16 && Code(op.value) == c
    ensures op.None? ==> forall o :: Code(o) != c
  {
    match c
    case 0 => Some(Continuation)
    case 1 => Some(Text)
    case 2 => Some(Binary)
    case 8 => Some(Close)
    case 9 => Some(Ping)
    case 10 => Some(Pong)
    case _ => None
  }

  predicate IsControl(op: Opcode) { Code(op) >= 8 }

  /** `key` is present exactly on masked frames. */
  datatype Header = Header(fin: bool, opcode: Opcode, length: nat, key: Option<seq<byte>>)

  datatype Verdict = NeedMore | Violation | Parsed(header: Header, size: nat)

  const MAX_LENGTH: nat := 0x8000_0000_0000_0000

  /** What a frame header may say: control frames are short and unfragmented, and the top bit of the
      length is zero. */
  predicate Legal(h: Header)
  {
    && (IsControl(h.opcode) ==> h.length <= 125 && h.fin)
    && h.length < MAX_LENGTH
    && (h.key.Some? ==> |h.key.value| == 4)
  }

  // ----- The format -----

  function LengthBytes(length: nat): (s: seq<byte>)
    requires length < M64
  {
    if length < 126 then []
    else if length <= 0xFFFF then NetworkBytes(2, length)
    else NetworkBytes(8, length)
  }

  function ShortLength(length: nat): (b: byte)
    ensures b < 128
  {
    if length < 126 then length else if length <= 0xFFFF then 126 else 127
  }

  /** The one header that encodes `h`. */
  function Encode(h: Header): (s: seq<byte>)
    requires h.length < M64
  {
    [(if h.fin then 128 else 0) + Code(h.opcode), (if h.key.Some? then 128 else 0) + ShortLength(h.length)]
    + LengthBytes(h.length)
    + (if h.key.Some? then h.key.value else [])
  }

  function HeaderSize(h: Header): nat
  {
    2 + (if h.length < 126 then 0 else if h.length <= 0xFFFF then 2 else 8) + (if h.key.Some? then 4 else 0)
  }

  /** The parser's verdict on a buffer. */
  function Parse(buf: seq<byte>): (v: Verdict)
    ensures v.Parsed? ==> 2 <= v.size <= |buf|
  {
    if |buf| < 2 then NeedMore
    else if (buf[0] / 16) % 8 != 0 || OpcodeOf(buf[0] % 16).None? then Violation
    else
      var fin, op := buf[0] >= 128, OpcodeOf(buf[0] % 16).value;
      var masked, short := buf[1] >= 128, buf[1] % 128;
      if short == 126 && |buf| < 4 then NeedMore
      else if short == 127 && |buf| < 10 then NeedMore
      else
        var length := if short == 126 then BigEndian(buf[2..4]) else if short == 127 then BigEndian(buf[2..10]) else
          short;
        var pos := if short == 126 then 4 else if short == 127 then 10 else 2;
        if short == 126 && length < 126 then Violation
        else if short == 127 && (length >= MAX_LENGTH || length <= 0xFFFF) then Violation
        else if IsControl(op) && (length > 125 || !fin) then Violation
        else if !masked then Parsed(Header(fin, op, length, None), pos)
        else if |buf| < pos + 4 then NeedMore
        else Parsed(Header(fin, op, length, Some(buf[pos..pos + 4])), pos + 4)
  }

  // ----- The source's functions -----

  /** `ws_parse_header`: the reads of the length fields go through `memcpy` and a byte swap. */
  method ParseHeader(buf: seq<byte>) returns (v: Verdict)
    ensures v == Parse(buf)
  {
    var len := |buf|;
    if len < 2 {
      return NeedMore;
    }
    var b0, b1 := buf[0], buf[1];
    if (b0 / 16) % 8 != 0 {
      return Violation;
    }
    var fin := b0 >= 128;
    var op := OpcodeOf(b0 % 16);
    if op.None? {
      return Violation;
    }
    var masked := b1 >= 128;
    var length: nat := b1 % 128;
    var pos := 2;
    if length == 126 {
      if len < 4 {
        return NeedMore;
      }
      NetToHost16(buf[2..4]);
      length := ByteSwap16(LoadWord(buf[2..4]));
      if length < 126 {
        return Violation;
      }
      pos := 4;
    } else if length == 127 {
      if len < 10 {
        return NeedMore;
      }
      NetToHost64(buf[2..10]);
      length := ByteSwap64(LoadWord(buf[2..10]));
      if length >= MAX_LENGTH || length <= 0xFFFF {
        return Violation;
      }
      pos := 10;
    }
    if IsControl(op.value) && (length > 125 || !fin) {
      return Violation;
    }
    var key := None;
    if masked {
      if len < pos + 4 {
        return NeedMore;
      }
      key := Some(buf[pos..pos + 4]);
      pos := pos + 4;
    }
    return Parsed(Header(fin, op.value, length, key), pos);
  }

  /** `ws_client_header_size`. */
  function ClientHeaderSize(length: nat): (n: nat)
    ensures forall fin, op, key :: n == HeaderSize(Header(fin, op, length, Some(key)))
  {
    if length > 0xFFFF then 14 else if length >= 126 then 8 else 6
  }

  /** Writes the next bytes behind what has been written so far. */
  method CopyBehind(dst: array<byte>, at: nat, bytes: seq<byte>, ghost done: seq<byte>,
    ghost was: seq<byte>) returns (next: nat)
    requires at + |bytes| <= dst.Length == |was|
    requires dst[..at] == done && dst[at..] == was[at..]
    modifies dst
    ensures next == at + |bytes|
    ensures dst[..next] == done + bytes && dst[next..] == was[next..]
  {
    assert dst[at + |bytes|..] == dst[at..][|bytes|..];
    ghost var before := dst[..];
    forall k | 0 <= k < |bytes| {
      dst[at + k] := bytes[k];
    }
    next := at + |bytes|;
    assert dst[..next] == before[..at] + bytes;
    assert dst[next..] == before[next..];
  }

  /** The length field, short or extended. */
  method PutLength(dst: array<byte>, length: nat, ghost done: seq<byte>, ghost was: seq<byte>) returns (pos: nat)
    requires length < M64 && dst.Length == |was| && ClientHeaderSize(length) <= dst.Length
    requires |done| == 1 && dst[..1] == done && dst[1..] == was[1..]
    modifies dst
    ensures pos == ClientHeaderSize(length) - 4
    ensures dst[..pos] == done + [128 + ShortLength(length)] + LengthBytes(length) && dst[pos..] == was[pos..]
  {
    LengthFits(length);
    if length < 126 {
      pos := CopyBehind(dst, 1, [128 + length], done, was);
      assert LengthBytes(length) == [];
    } else if length <= 0xFFFF {
      pos := CopyBehind(dst, 1, [128 + 126], done, was);
      HostToNet16(length);
      pos := CopyBehind(dst, pos, StoreWord(2, ByteSwap16(length)), done + [128 + 126], was);
    } else {
      pos := CopyBehind(dst, 1, [128 + 127], done, was);
      HostToNet64(length);
      pos := CopyBehind(dst, pos, StoreWord(8, ByteSwap64(length)), done + [128 + 127], was);
    }
  }

  /** `ws_encode_client_header`. */
  method EncodeClientHeader(dst: array<byte>, op: Opcode, length: nat, key: seq<byte>, fin: bool) returns (n: nat)
    requires |key| == 4 && length < M64
    modifies dst
    ensures n == (if dst.Length < ClientHeaderSize(length) then 0 else ClientHeaderSize(length))
    ensures n > 0 ==> dst[..n] == Encode(Header(fin, op, length, Some(key)))
    ensures dst[n..] == old(dst[n..])
  {
    var need := ClientHeaderSize(length);
    if dst.Length < need {
      return 0;
    }
    ghost var was := dst[..];
    var first: byte := (if fin then 128 else 0) + Code(op);
    assert dst[0..] == was[0..];
    var pos := CopyBehind(dst, 0, [first], [], was);
    assert [] + [first] == [first];
    pos := PutLength(dst, length, [first], was);
    n := CopyBehind(dst, pos, key, dst[..pos], was);
    ghost var second: byte := 128 + ShortLength(length);
    assert [first, second] == [first] + [second];
  }

  // ----- The codec's laws -----

  lemma LengthFits(length: nat)
    requires length < M64
    ensures |LengthBytes(length)| == (if length < 126 then 0 else if length <= 0xFFFF then 2 else 8)
    ensures length >= 126 ==> BigEndian(LengthBytes(length)) == length
  {
    Pow256Known();
    if 126 <= length <= 0xFFFF {
      NetworkRoundTrip(2, length);
    } else if length > 0xFFFF {
      NetworkRoundTrip(8, length);
    }
  }

  lemma EncodeShape(h: Header)
    requires h.length < M64 && (h.key.Some? ==> |h.key.value| == 4)
    ensures |Encode(h)| == HeaderSize(h)
    ensures var s, n := Encode(h), |LengthBytes(h.length)|;
      && s[2..2 + n] == LengthBytes(h.length)
      && (h.key.Some? ==> s[2 + n..] == h.key.value)
  {
    LengthFits(h.length);
  }

  /** Where everything stands in a header, in numbers: final bit and opcode in the first byte, mask bit and short
      length in the second, then the longer length with its most significant byte first, then the key. */
  lemma HeaderLayout(h: Header)
    requires h.length < M64 && (h.key.Some? ==> |h.key.value| == 4)
    ensures |Encode(h)| >= 2
    ensures var first, second := Encode(h)[0], Encode(h)[1] % 128;
      && first == (if h.fin then 128 else 0) + (match h.opcode
           case Continuation => 0 case Text => 1 case Binary => 2 case Close => 8 case Ping => 9 case Pong => 10)
      && (Encode(h)[1] >= 128 <==> h.key.Some?)
      && second == (if h.length < 126 then h.length else if h.length < 0x1_0000 then 126 else 127)
    ensures var s, n := Encode(h), if h.length < 126 then 0 else if h.length < 0x1_0000 then 2 else 8;
      && |s| == 2 + n + (if h.key.Some? then 4 else 0)
      && (n == 2 ==> 256 * (s[2] as int) + s[3] as int == h.length)
      && (n == 8 ==> BigEndian(s[2..10]) == h.length)
      && (h.key.Some? ==> s[2 + n..] == h.key.value)
  {
    EncodeShape(h);
    LengthFits(h.length);
    SecondByteFields(h.key.Some?, ShortLength(h.length));
    if 126 <= h.length < 0x1_0000 {
      var two := Encode(h)[2..4];
      assert two[0] == Encode(h)[2] && two[1] == Encode(h)[3];
      TwoBytes(two);
    }
  }

  lemma TwoBytes(s: seq<byte>)
    requires |s| == 2
    ensures BigEndian(s) == 256 * (s[0] as int) + s[1] as int
  {
    var one := s[..1];
    assert BigEndian(one[..0]) == 0;
    assert BigEndian(one) == 256 * BigEndian(one[..0]) + one[0];
  }

  lemma FirstByteFields(fin: bool, op: Opcode)
    ensures var b := (if fin then 128 else 0) + Code(op);
      && (b / 16) % 8 == 0 && (b >= 128 <==> fin)
      && OpcodeOf(b % 16) == Some(op)
  {
  }

  lemma SecondByteFields(masked: bool, short: byte)
    requires short < 128
    ensures var b := (if masked then 128 else 0) + short;
      b % 128 == short && (b >= 128 <==> masked)
  {
  }

  /** Encoding then parsing: a legal header comes back, and an illegal one is refused; nothing that
      follows the header matters. */
  lemma ParseEncode(h: Header, rest: seq<byte>)
    requires h.length < M64 && (h.key.Some? ==> |h.key.value| == 4)
    ensures Legal(h) ==> Parse(Encode(h) + rest) == Parsed(h, HeaderSize(h))
    ensures !Legal(h) ==> Parse(Encode(h) + rest) == Violation
  {
    LengthFits(h.length);
    EncodeShape(h);
    var s, buf, n := Encode(h), Encode(h) + rest, |LengthBytes(h.length)|;
    assert buf[0] == s[0] && buf[1] == s[1];
    FirstByteFields(h.fin, h.opcode);
    SecondByteFields(h.key.Some?, ShortLength(h.length));
    SliceOfPrefix(s, rest, 2, 2 + n);
    if h.key.Some? {
      SliceOfPrefix(s, rest, 2 + n, 2 + n + 4);
    }
  }

  lemma SliceOfPrefix(s: seq<byte>, rest: seq<byte>, a: nat, b: nat)
    requires a <= b <= |s|
    ensures (s + rest)[a..b] == s[a..b]
  {
  }

  lemma ParsedLength(buf: seq<byte>)
    requires Parse(buf).Parsed?
    ensures var h := Parse(buf).header;
      && h.length < MAX_LENGTH && ShortLength(h.length) == buf[1] % 128
      && var n := |LengthBytes(h.length)|;
      && 2 + n <= |buf| && LengthBytes(h.length) == buf[2..2 + n]
      && n == (if h.length < 126 then 0 else if h.length <= 0xFFFF then 2 else 8)
      && Parse(buf).size == 2 + n + (if h.key.Some? then 4 else 0)
      && (h.key.Some? ==> h.key.value == buf[2 + n..2 + n + 4])
  {
    var short := buf[1] % 128;
    Pow256Known();
    if short == 126 {
      BigEndianBound(buf[2..4]);
      NetworkBytesUnique(buf[2..4]);
    } else if short == 127 {
      NetworkBytesUnique(buf[2..10]);
    }
  }

  /** Parsing then encoding: an accepted header is the one encoding of what it says. */
  lemma EncodeParse(buf: seq<byte>)
    requires Parse(buf).Parsed?
    ensures Legal(Parse(buf).header) && Parse(buf).size == HeaderSize(Parse(buf).header)
    ensures Encode(Parse(buf).header) == buf[..Parse(buf).size]
  {
    ParsedLength(buf);
    var h, size := Parse(buf).header, Parse(buf).size;
    var n := |LengthBytes(h.length)|;
    FirstByte(buf[0]);
    assert Encode(h)[0] == buf[0] && Encode(h)[1] == buf[1];
    InThree(buf, 2 + n, size);
  }

  lemma InThree(buf: seq<byte>, m: nat, size: nat)
    requires 2 <= m <= size <= |buf|
    ensures buf[..size] == [buf[0], buf[1]] + buf[2..m] + buf[m..size]
  {
  }

  lemma FirstByte(b: byte)
    requires (b / 16) % 8 == 0
    ensures b == (if b >= 128 then 128 else 0) + b % 16
  {
  }

  /** A verdict other than "need more" is final: appended bytes do not change it. */
  lemma VerdictStable(buf: seq<byte>, more: seq<byte>)
    requires !Parse(buf).NeedMore?
    ensures Parse(buf + more) == Parse(buf)
  {
    var b := buf + more;
    assert b[0] == buf[0] && b[1] == buf[1];
    if |buf| >= 4 {
      assert b[2..4] == buf[2..4];
    }
    if |buf| >= 10 {
      assert b[2..10] == buf[2..10];
    }
    if Parse(buf).Parsed? && buf[1] >= 128 {
      var pos := Parse(buf).size - 4;
      assert b[pos..pos + 4] == buf[pos..pos + 4];
    }
  }
}
