/**
 Laws of the response parser: results do not depend on how the bytes arrive, and the chunk decoder
 inverts chunk encoding.
 */
module HttpLaws {
  import opened Arith
  import opened Bits
  import opened HttpText
  import opened HttpResponse
  import opened HttpLines
  import opened Wrappers

  // ----- Appended bytes do not change a result -----

  lemma PieceStable(s: seq<byte>, t: seq<byte>, p: nat)
    requires p <= |s| && !PieceAt(s, p).Unfinished?
    ensures PieceAt(s + t, p) == PieceAt(s, p)
  {
    hide ParseHex;
    FindStable(s, t, CRLF, p);
    var eol := Find(s, CRLF, p).value;
    assert (s + t)[p..eol] == s[p..eol];
    if PieceAt(s, p).Final? {
      FindStable(s, t, CRLFCRLF, eol);
    }
  }

  lemma {:induction false} ChunksStable(s: seq<byte>, t: seq<byte>, p: nat)
    requires p <= |s| && !DecodeChunks(s, p).More?
    ensures DecodeChunks(s + t, p) == DecodeChunks(s, p)
    decreases |s| - p
  {
    hide PieceAt;
    PieceStable(s, t, p);
    var c := PieceAt(s, p);
    if c.Chunk? {
      assert (s + t)[c.data..c.data + c.size] == s[c.data..c.data + c.size];
      ChunksStable(s, t, c.data + c.size + 2);
    }
  }

  /** The response is chunked and one of its size lines is not a number. */
  ghost predicate MalformedChunks(s: seq<byte>)
  {
    var end := Find(s, CRLFCRLF, 0);
    end.Some? && MetaOf(s, end.value).chunked && DecodeChunks(s, end.value + 4).Malformed?
  }

  /** `r'` is what `r` becomes when `s` grows into `s'`: the same, except that a malformed response
      claims the whole buffer. */
  ghost predicate SameResult(s: seq<byte>, r: Response, s': seq<byte>, r': Response)
  {
    match r
    case Incomplete => false
    case Overflows => r' == Overflows
    case Complete(status, body, consumed) =>
      r' == Complete(status, body, if MalformedChunks(s) then |s'| else consumed)
  }

  lemma BodyStable(s: seq<byte>, t: seq<byte>, end: nat, status: nat)
    requires end + 4 <= |s| && Find(s, CRLFCRLF, 0) == Some(end)
    requires !ParseBody(s, end, status).Incomplete?
    ensures SameResult(s, ParseBody(s, end, status), s + t, ParseBody(s + t, end, status))
  {
    hide Find, MetaOf, DecodeChunks;
    SameMeta(s, t, end);
    var m, start := MetaOf(s, end), end + 4;
    if m.chunked {
      ChunksStable(s, t, start);
    } else if start + BodyLength(m) <= |s| {
      SameRange(s, t, start, start + BodyLength(m));
    }
  }

  lemma SameMeta(s: seq<byte>, t: seq<byte>, end: nat)
    requires end + 2 <= |s|
    ensures MetaOf(s + t, end) == MetaOf(s, end)
  {
    assert (s + t)[..end + 2] == s[..end + 2];
  }

  lemma SameRange(s: seq<byte>, t: seq<byte>, a: nat, b: nat)
    requires a <= b <= |s|
    ensures (s + t)[a..b] == s[a..b]
  {
  }

  /** A verdict other than "incomplete" is final: status and body never change, and neither does the
      number of bytes consumed unless the chunks are malformed. */
  lemma ResponseStable(s: seq<byte>, t: seq<byte>)
    requires !ParseResponse(s).Incomplete?
    ensures SameResult(s, ParseResponse(s), s + t, ParseResponse(s + t))
  {
    FindStable(s, t, CRLFCRLF, 0);
    FindStable(s, t, [SPACE], 0);
    var end, sp := Find(s, CRLFCRLF, 0).value, Find(s, [SPACE], 0).value;
    hide Find, ParseBody;
    assert StatusAt(s + t, sp) == StatusAt(s, sp);
    BodyStable(s, t, end, StatusAt(s, sp));
  }

  /** Whichever two prefixes of a stream are long enough to yield a response, they yield the same one;
      so it does not matter where the stream was cut. */
  lemma SplitIndependent(stream: seq<byte>, i: nat, j: nat)
    requires i <= |stream| && j <= |stream|
    requires ParseResponse(stream[..i]).Complete? && ParseResponse(stream[..j]).Complete?
    ensures ParseResponse(stream[..i]).status == ParseResponse(stream[..j]).status
    ensures ParseResponse(stream[..i]).body == ParseResponse(stream[..j]).body
  {
    hide ParseResponse;
    if i <= j {
      ResponseStable(stream[..i], stream[i..j]);
      assert stream[..i] + stream[i..j] == stream[..j];
    } else {
      ResponseStable(stream[..j], stream[j..i]);
      assert stream[..j] + stream[j..i] == stream[..i];
    }
  }

  lemma {:induction false} DoneBehind(s: seq<byte>, p: nat)
    requires p <= |s| && DecodeChunks(s, p).Done?
    ensures DecodeChunks(s, p).consumed >= p
    decreases |s| - p
  {
    hide PieceAt;
    var c := PieceAt(s, p);
    if c.Chunk? {
      DoneBehind(s, c.data + c.size + 2);
    }
  }

  /** Hex digits of any number are read modulo 2^64. */
  lemma {:induction false} ParseHexWraps(s: seq<byte>, acc: nat)
    requires AllHex(s)
    ensures ParseHexFrom(s, acc % M64) == HexValue(s, acc) % M64
    decreases |s|
  {
    if s != [] {
      WrapsOnce(acc, 16, HexDigit(s[0]).value);
      ParseHexWraps(s[1..], acc * 16 + HexDigit(s[0]).value);
    }
  }

  /** A complete response has at least its blank line. */
  lemma ConsumesSome(s: seq<byte>)
    requires ParseResponse(s).Complete?
    ensures 4 <= ParseResponse(s).consumed <= |s|
  {
    hide DecodeChunks, ScanHeaders;
    var end := Find(s, CRLFCRLF, 0).value;
    if MetaOf(s, end).chunked && DecodeChunks(s, end + 4).Done? {
      DoneBehind(s, end + 4);
    }
  }

  // ----- Chunk encoding -----

  function HexChar(d: nat): (b: byte)
    requires d < 16
    ensures HexDigit(b) == Some(d) && b != 13 && b != SEMICOLON
  {
    if d < 10 then 48 + d else 87 + d
  }

  predicate AllHex(s: seq<byte>)
  {
    forall i :: 0 <= i < |s| ==> HexDigit(s[i]).Some?
  }

  function HexDigits(n: nat): (s: seq<byte>)
    ensures s != [] && AllHex(s)
  {
    if n < 16 then [HexChar(n)] else HexDigits(n / 16) + [HexChar(n % 16)]
  }

  function HexValue(s: seq<byte>, acc: nat): nat
    requires AllHex(s)
    decreases |s|
  {
    if s == [] then acc else HexValue(s[1..], acc * 16 + HexDigit(s[0]).value)
  }

  lemma {:induction false} HexValueGrows(s: seq<byte>, acc: nat)
    requires AllHex(s)
    ensures HexValue(s, acc) >= acc
    decreases |s|
  {
    if s != [] {
      HexValueGrows(s[1..], acc * 16 + HexDigit(s[0]).value);
    }
  }

  lemma {:induction false} HexValueLast(s: seq<byte>, b: byte, acc: nat)
    requires AllHex(s) && HexDigit(b).Some?
    ensures HexValue(s + [b], acc) == HexValue(s, acc) * 16 + HexDigit(b).value
    decreases |s|
  {
    if s == [] {
      assert s + [b] == [b] && [b][1..] == [];
    } else {
      assert (s + [b])[0] == s[0] && (s + [b])[1..] == s[1..] + [b];
      HexValueLast(s[1..], b, acc * 16 + HexDigit(s[0]).value);
    }
  }

  lemma {:induction false} HexDigitsValue(n: nat)
    ensures HexValue(HexDigits(n), 0) == n
    decreases n
  {
    if n >= 16 {
      HexDigitsValue(n / 16);
      HexValueLast(HexDigits(n / 16), HexChar(n % 16), 0);
    } else {
      assert HexDigits(n)[1..] == [];
    }
  }

  lemma {:induction false} ParseHexExact(s: seq<byte>, acc: nat)
    requires AllHex(s) && HexValue(s, acc) < M64 && acc < M64
    ensures ParseHexFrom(s, acc) == HexValue(s, acc)
    decreases |s|
  {
    if s != [] {
      var next := acc * 16 + HexDigit(s[0]).value;
      HexValueGrows(s[1..], next);
      assert next % M64 == next;
      ParseHexExact(s[1..], next);
    }
  }

  lemma HexRoundTrip(n: nat)
    requires n < M64
    ensures ParseHex(HexDigits(n)) == n
  {
    HexDigitsValue(n);
    ParseHexExact(HexDigits(n), 0);
  }

  /** A size line: digits, perhaps with an extension behind a semicolon. */
  lemma {:induction false} ExtensionIgnored(digits: seq<byte>, ext: seq<byte>, acc: nat)
    requires AllHex(digits) && acc < M64 && (ext == [] || ext[0] == SEMICOLON)
    ensures ParseHexFrom(digits + ext, acc) == ParseHexFrom(digits, acc)
    decreases |digits|
  {
    if digits == [] {
      assert digits + ext == ext;
    } else {
      assert (digits + ext)[0] == digits[0] && (digits + ext)[1..] == digits[1..] + ext;
      ExtensionIgnored(digits[1..], ext, (acc * 16 + HexDigit(digits[0]).value) % M64);
    }
  }

  /** Every size can be written, with any extension. */
  lemma SizeLineExists(n: nat, ext: seq<byte>)
    requires n < M64 && (ext == [] || ext[0] == SEMICOLON) && 13 !in ext
    ensures IsSizeLine(HexDigits(n) + ext, n)
  {
    HexRoundTrip(n);
    ExtensionIgnored(HexDigits(n), ext, 0);
    HexHasNoReturn(HexDigits(n));
  }

  lemma HexHasNoReturn(digits: seq<byte>)
    requires AllHex(digits)
    ensures 13 !in digits
  {
    forall i | 0 <= i < |digits| ensures digits[i] != 13 {
      assert HexDigit(digits[i]).Some?;
    }
  }

  /** Any line the parser reads as the size `n`: leading zeros, either case, extensions. */
  predicate IsSizeLine(line: seq<byte>, n: nat)
  {
    13 !in line && ParseHex(line) == n
  }

  /** A chunk with its size line as it is on the wire. */
  datatype Sized = Sized(line: seq<byte>, data: seq<byte>)

  predicate WellSized(c: Sized)
  {
    c.data != [] && IsSizeLine(c.line, |c.data|)
  }

  predicate AllSized(cs: seq<Sized>)
  {
    forall i :: 0 <= i < |cs| ==> WellSized(cs[i])
  }

  function WireChunk(c: Sized): seq<byte> { c.line + CRLF + c.data + CRLF }

  /** The zero chunk and its trailers. */
  function WireEnd(last: seq<byte>, trailers: seq<seq<byte>>): seq<byte>
  {
    Lines([last] + trailers) + CRLF
  }

  /** A chunked body. */
  function Wire(cs: seq<Sized>, last: seq<byte>, trailers: seq<seq<byte>>): seq<byte>
  {
    if cs == [] then WireEnd(last, trailers) else WireChunk(cs[0]) + Wire(cs[1..], last, trailers)
  }

  function Joined(cs: seq<Sized>): seq<byte>
  {
    if cs == [] then [] else cs[0].data + Joined(cs[1..])
  }

  lemma PieceOfChunk(pre: seq<byte>, c: Sized, rest: seq<byte>)
    requires WellSized(c) && |pre + WireChunk(c) + rest| < M64
    ensures var p := |pre| + |c.line| + 2;
      PieceAt(pre + WireChunk(c) + rest, |pre|) == Chunk(p, |c.data|)
  {
    hide Find, ParseHex;
    var s := pre + WireChunk(c) + rest;
    assert s == pre + c.line + CRLF + (c.data + CRLF + rest);
    LineFound(pre, c.line, c.data + CRLF + rest);
  }

  lemma ChunkData(pre: seq<byte>, c: Sized, rest: seq<byte>)
    ensures var p := |pre| + |c.line| + 2;
      (pre + WireChunk(c) + rest)[p..p + |c.data|] == c.data && |pre + WireChunk(c)| == p + |c.data| + 2
  {
    var head := pre + c.line + CRLF;
    assert pre + WireChunk(c) + rest == head + c.data + (CRLF + rest);
  }

  /** A match found behind `pre` is where it is without `pre`. */
  lemma FindBehind(pre: seq<byte>, s: seq<byte>, pat: seq<byte>, k: nat)
    requires Find(s, pat, 0).Some? && k <= Find(s, pat, 0).value
    ensures Find(pre + s, pat, |pre| + k) == Some(|pre| + Find(s, pat, 0).value)
  {
    var i := Find(s, pat, 0).value;
    hide Find, MatchAt;
    FirstBehind(pre, s, pat, k, i);
    FindUnique(pre + s, pat, |pre| + k, |pre| + i);
  }

  lemma FirstBehind(pre: seq<byte>, s: seq<byte>, pat: seq<byte>, k: nat, i: nat)
    requires k <= i && MatchAt(s, pat, i) && forall j :: k <= j < i ==> !MatchAt(s, pat, j)
    ensures MatchAt(pre + s, pat, |pre| + i)
    ensures forall j :: |pre| + k <= j < |pre| + i ==> !MatchAt(pre + s, pat, j)
  {
    hide MatchAt;
    MatchBehind(pre, s, pat, i);
    forall j | |pre| + k <= j < |pre| + i ensures !MatchAt(pre + s, pat, j) {
      MatchBehind(pre, s, pat, j - |pre|);
    }
  }

  lemma MatchBehind(pre: seq<byte>, s: seq<byte>, pat: seq<byte>, j: nat)
    ensures MatchAt(pre + s, pat, |pre| + j) == MatchAt(s, pat, j)
  {
    if j + |pat| <= |s| {
      assert (pre + s)[|pre| + j..|pre| + j + |pat|] == s[j..j + |pat|];
    }
  }

  lemma PieceOfFinal(pre: seq<byte>, last: seq<byte>, trailers: seq<seq<byte>>, rest: seq<byte>)
    requires IsSizeLine(last, 0) && AllClean(trailers)
    ensures PieceAt(pre + WireEnd(last, trailers) + rest, |pre|) == Final(|pre| + |WireEnd(last, trailers)|)
  {
    hide Lines, Find, ParseHex, PieceAt;
    var ls := [last] + trailers;
    var more := LastLine(last, trailers);
    LastIsClean(last, trailers);
    BlankLineFound(ls, rest);
    var s := Lines(ls) + CRLF + rest;
    Regrouped(pre, last, more, rest);
    LineFound(pre, last, more + CRLF + rest);
    assert pre + WireEnd(last, trailers) + rest == pre + s;
    FindBehind(pre, s, CRLFCRLF, |last|);
    FinalFound(pre + s, |pre|, |pre| + |last|, |pre| + |Lines(ls)| - 2);
  }

  lemma Regrouped(pre: seq<byte>, last: seq<byte>, more: seq<byte>, rest: seq<byte>)
    ensures pre + ((last + CRLF + more) + CRLF + rest) == pre + last + CRLF + (more + CRLF + rest)
  {
  }

  lemma LastIsClean(last: seq<byte>, trailers: seq<seq<byte>>)
    requires IsSizeLine(last, 0) && AllClean(trailers)
    ensures AllClean([last] + trailers)
  {
  }

  lemma FinalFound(s: seq<byte>, p: nat, eol: nat, term: nat)
    requires p <= eol <= |s| && Find(s, CRLF, p) == Some(eol) && Find(s, CRLFCRLF, eol) == Some(term)
    requires ParseHex(s[p..eol]) == 0
    ensures PieceAt(s, p) == Final(term + 4)
  {
  }

  lemma {:induction false} LastLine(last: seq<byte>, trailers: seq<seq<byte>>) returns (more: seq<byte>)
    ensures Lines([last] + trailers) == last + CRLF + more
    decreases |trailers|
  {
    LinesJoin([last], trailers);
    LinesNone();
    LinesSnoc([], last);
    assert [] + [last] == [last] && [] + last + CRLF == last + CRLF;
    more := Lines(trailers);
  }

  /** The decoder recovers every body from every way of cutting it into chunks, with any size lines, extensions
      and trailers, and consumes exactly the chunked body, whatever stands before and after it. */
  lemma {:induction false} WireDecodes(pre: seq<byte>, cs: seq<Sized>, last: seq<byte>, trailers: seq<seq<byte>>,
                                       rest: seq<byte>)
    requires AllSized(cs) && IsSizeLine(last, 0) && AllClean(trailers)
    requires |pre + Wire(cs, last, trailers) + rest| < M64
    ensures DecodeChunks(pre + Wire(cs, last, trailers) + rest, |pre|)
         == Done(Joined(cs), |pre| + |Wire(cs, last, trailers)|)
    decreases |cs|
  {
    hide PieceAt, WireChunk, WireEnd, DecodeChunks;
    if cs == [] {
      PieceOfFinal(pre, last, trailers, rest);
      ChunksUnfold(pre + Wire(cs, last, trailers) + rest, |pre|);
    } else {
      var c, next, tail := cs[0], pre + WireChunk(cs[0]), Wire(cs[1..], last, trailers);
      WireParts(pre, WireChunk(c), tail, rest);
      PieceOfChunk(pre, c, tail + rest);
      ChunkData(pre, c, tail + rest);
      ChunksUnfold(next + (tail + rest), |pre|);
      WireDecodes(next, cs[1..], last, trailers, rest);
    }
  }

  lemma WireParts(pre: seq<byte>, c: seq<byte>, tail: seq<byte>, rest: seq<byte>)
    ensures pre + (c + tail) + rest == (pre + c) + (tail + rest) == (pre + c) + tail + rest
  {
  }

  // ----- Whole responses -----

  /** A status line: a space and three more bytes. */
  predicate StatusLine(line: seq<byte>)
  {
    var sp := Find(line, [SPACE], 0);
    sp.Some? && sp.value + 4 <= |line|
  }

  function LineStatus(line: seq<byte>): nat
    requires StatusLine(line)
  {
    StatusAt(line, Find(line, [SPACE], 0).value)
  }

  lemma StatusRead(line: seq<byte>, rest: seq<byte>)
    requires StatusLine(line)
    ensures StatusLine(line + rest) && LineStatus(line + rest) == LineStatus(line)
  {
    FindStable(line, rest, [SPACE], 0);
  }

  lemma {:induction false} FirstLine(ls: seq<seq<byte>>) returns (rest: seq<byte>)
    requires ls != []
    ensures Lines(ls) == ls[0] + rest
    decreases |ls|
  {
    if |ls| == 1 {
      LinesNone();
      assert ls[..0] == [];
      rest := CRLF;
      assert [] + ls[0] + CRLF == ls[0] + CRLF;
    } else {
      var more := FirstLine(ls[..|ls| - 1]);
      rest := more + ls[|ls| - 1] + CRLF;
      assert ls[0] + more + ls[|ls| - 1] + CRLF == ls[0] + rest;
    }
  }

  /** A response of clean lines is judged by its status line, its header lines and what follows them. */
  lemma ResponseOfLines(ls: seq<seq<byte>>, rest: seq<byte>)
    requires ls != [] && AllClean(ls) && StatusLine(ls[0])
    ensures 2 <= |Lines(ls)|
    ensures var s, end := Lines(ls) + CRLF + rest, |Lines(ls)| - 2;
      ParseResponse(s) == ParseBody(s, end, LineStatus(ls[0])) && MetaOf(s, end) == LinesMeta(ls)
  {
    hide Lines, LinesMeta, Find, MetaOf, ParseBody;
    HeadersRead(ls, rest);
    var more := FirstLine(ls);
    StatusRead(ls[0], more + CRLF + rest);
    assert ls[0] + more + CRLF + rest == ls[0] + (more + CRLF + rest);
  }

  /** A response with a length is read back whole, whatever follows it on the connection. */
  lemma LengthRoundTrip(ls: seq<seq<byte>>, body: seq<byte>, rest: seq<byte>)
    requires ls != [] && AllClean(ls) && StatusLine(ls[0])
    requires !LinesMeta(ls).chunked && BodyLength(LinesMeta(ls)) == |body|
    requires |Lines(ls) + CRLF + body| < M64
    ensures ParseResponse(Lines(ls) + CRLF + (body + rest))
         == Complete(LineStatus(ls[0]), body, |Lines(ls) + CRLF + body|)
  {
    hide Lines, LinesMeta, Find, MetaOf, DecodeChunks;
    ResponseOfLines(ls, body + rest);
    var head := Lines(ls) + CRLF;
    assert (head + (body + rest))[|head|..|head| + |body|] == body;
  }

  /** A chunked response is read back whole, whatever its chunks, extensions and trailers and whatever follows. */
  lemma ChunkedRoundTrip(ls: seq<seq<byte>>, cs: seq<Sized>, last: seq<byte>, trailers: seq<seq<byte>>, rest: seq<byte>)
    requires ls != [] && AllClean(ls) && StatusLine(ls[0])
    requires LinesMeta(ls).chunked && AllSized(cs) && IsSizeLine(last, 0) && AllClean(trailers)
    requires |Lines(ls) + CRLF + Wire(cs, last, trailers) + rest| < M64
    ensures ParseResponse(Lines(ls) + CRLF + (Wire(cs, last, trailers) + rest))
         == Complete(LineStatus(ls[0]), Joined(cs), |Lines(ls) + CRLF + Wire(cs, last, trailers)|)
  {
    hide Lines, LinesMeta, Find, MetaOf, DecodeChunks, Wire;
    var wire := Wire(cs, last, trailers);
    ResponseOfLines(ls, wire + rest);
    var head := Lines(ls) + CRLF;
    WireDecodes(head, cs, last, trailers, rest);
    assert head + wire + rest == head + (wire + rest);
  }
}
