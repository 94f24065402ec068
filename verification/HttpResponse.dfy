/**
 `parse_http_response`: incremental HTTP/1.1 response parsing with in-place chunk decoding
 (section 7.1 of RFC 9112).

 `ParseResponse` is a pure reference parser on the original bytes.  `ParseInPlace` is the source's
 two-pass algorithm on an array; it is proved to compute the reference result although its second
 pass overwrites the buffer it is still scanning.
 */
module HttpResponse {
  import opened Arith
  import opened Bits
  import opened HttpText
  import opened Wrappers

  // ----- Chunk sizes -----

  /** `SIZE_MAX`, the parser's mark for a malformed or absent number. */
  const NO_SIZE: nat := M64 - 1
  const SEMICOLON: byte := 59

  function HexDigit(b: byte): (d: Option<nat>)
    ensures d.Some? ==> d.value < 16
  {
    if 48 <= b <= 57 then Some(b - 48)
    else if 97 <= b <= 102 then Some(b - 97 + 10)
    else if 65 <= b <= 70 then Some(b - 65 + 10)
    else None
  }

  /** The rest of a size line after the value `acc`, in 64-bit arithmetic: accumulation wraps. */
  function ParseHexFrom(s: seq<byte>, acc: nat): (n: nat)
    requires acc < M64
    ensures n < M64
    decreases |s|
  {
    if s == [] || s[0] == SEMICOLON then acc
    else if HexDigit(s[0]).None? then NO_SIZE
    else ParseHexFrom(s[1..], (acc * 16 + HexDigit(s[0]).value) % M64)
  }

  function ParseHex(s: seq<byte>): (n: nat)
    ensures n < M64
  {
    if s == [] then NO_SIZE else ParseHexFrom(s, 0)
  }

  /** `parse_hex`. */
  method ReadHex(s: seq<byte>) returns (n: nat)
    ensures n == ParseHex(s)
  {
    if s == [] {
      return NO_SIZE;
    }
    n := 0;
    var i := 0;
    while i < |s|
      invariant i <= |s| && n < M64 && ParseHex(s) == ParseHexFrom(s[i..], n)
    {
      if s[i] == SEMICOLON {
        return n;
      }
      var d := HexDigit(s[i]);
      if d.None? {
        return NO_SIZE;
      }
      assert s[i..][1..] == s[i + 1..];
      n := (n * 16 + d.value) % M64;
      i := i + 1;
    }
  }

  // ----- Reference: chunks -----

  /** `Wraps`: a chunk whose end is not a 64-bit number and, wrapped, is found in the buffer. */
  datatype Chunks = More | Malformed | Wraps | Done(body: seq<byte>, consumed: nat)

  function Prepend(data: seq<byte>, c: Chunks): Chunks
  {
    if c.Done? then c.(body := data + c.body) else c
  }

  /** What starts at a chunk-size line: `Unfinished` needs more bytes; `Final` is the last chunk with its
      trailers; `Huge` is a chunk whose end is beyond 64 bits and wraps to a position in the buffer; otherwise a
      chunk with its data range. */
  datatype Piece = Unfinished | Bad | Huge(next: nat) | Final(consumed: nat) | Chunk(data: nat, size: nat)

  function PieceAt(s: seq<byte>, p: nat): (c: Piece)
    requires p <= |s|
    ensures c.Final? ==> p + 4 <= c.consumed <= |s|
    ensures c.Huge? ==> c.next <= |s|
    ensures c.Chunk? ==> p + 2 <= c.data && 0 < c.size && c.data + c.size + 2 <= |s|
  {
    var eol := Find(s, CRLF, p);
    if eol.None? then Unfinished
    else
      var size, data := ParseHex(s[p..eol.value]), eol.value + 2;
      if size == NO_SIZE then Bad
      else if size == 0 then
        var term := Find(s, CRLFCRLF, eol.value);
        if term.None? then Unfinished else Final(term.value + 4)
      else if |s| < (data + size + 2) % M64 then Unfinished
      else if data + size + 2 >= M64 then Huge((data + size + 2) % M64)
      else Chunk(data, size)
  }

  /** Decodes the chunks of `s` from position `p` on. */
  function DecodeChunks(s: seq<byte>, p: nat): (c: Chunks)
    requires p <= |s|
    ensures c.Done? ==> c.consumed <= |s|
    decreases |s| - p
  {
    match PieceAt(s, p)
    case Unfinished => More
    case Bad => Malformed
    case Huge(_) => Wraps
    case Final(consumed) => Done([], consumed)
    case Chunk(data, size) => Prepend(s[data..data + size], DecodeChunks(s, data + size + 2))
  }

  /** Reads one size line and judges what follows it. */
  method ReadPiece(s: seq<byte>, p: nat) returns (c: Piece)
    requires p <= |s|
    ensures c == PieceAt(s, p)
  {
    var eol := Search(s, CRLF, p);
    if eol.None? {
      return Unfinished;
    }
    var size := ReadHex(s[p..eol.value]);
    if size == NO_SIZE {
      return Bad;
    }
    var data := eol.value + 2;
    if size == 0 {
      var term := Search(s, CRLFCRLF, eol.value);
      if term.None? {
        return Unfinished;
      }
      return Final(term.value + 4);
    }
    var end := (data + size + 2) % M64;
    if |s| < end {
      return Unfinished;
    }
    if data + size + 2 >= M64 {
      return Huge(end);
    }
    return Chunk(data, size);
  }

  /** A piece is judged by the bytes from its line on. */
  lemma PieceSuffix(s: seq<byte>, t: seq<byte>, p: nat)
    requires |s| == |t| && p <= |s| && s[p..] == t[p..]
    ensures PieceAt(s, p) == PieceAt(t, p)
  {
    hide Find, ParseHex;
    FindSuffix(s, t, CRLF, p);
    var eol := Find(s, CRLF, p);
    if eol.Some? {
      SubSuffix(s, t, p, p, eol.value);
      SubSuffix(s, t, p, eol.value, |s|);
      FindSuffix(s, t, CRLFCRLF, eol.value);
    }
  }

  lemma SubSuffix(a: seq<byte>, b: seq<byte>, from: nat, lo: nat, hi: nat)
    requires |a| == |b| && from <= lo <= hi <= |a| && a[from..] == b[from..]
    ensures a[lo..hi] == b[lo..hi]
    ensures hi == |a| ==> a[lo..] == b[lo..]
  {
    forall i | lo <= i < hi ensures a[i] == b[i] {
      assert a[i] == a[from..][i - from] && b[i] == b[from..][i - from];
    }
  }

  // ----- Reference: headers -----

  datatype Meta = Meta(chunked: bool, length: nat)

  const CONTENT_LENGTH: seq<byte> := Ascii("content-length:")
  const TRANSFER_ENCODING: seq<byte> := Ascii("transfer-encoding:")
  const CHUNKED: seq<byte> := Ascii("chunked")

  function LineMeta(line: seq<byte>, m: Meta): Meta
  {
    if IStartsWith(line, CONTENT_LENGTH) then
      m.(length := ParseDecimal(TrimLeft(line[|CONTENT_LENGTH|..]), 0))
    else if IStartsWith(line, TRANSFER_ENCODING) && Find(line[|TRANSFER_ENCODING|..], CHUNKED, 0).Some? then
      m.(chunked := true)
    else m
  }

  function ScanHeaders(h: seq<byte>, pos: nat, m: Meta): Meta
    decreases |h| - pos
  {
    if pos >= |h| then m
    else
      var eol := Find(h, CRLF, pos);
      if eol.None? then m
      else ScanHeaders(h, eol.value + 2, LineMeta(h[pos..eol.value], m))
  }

  const NO_META: Meta := Meta(false, NO_SIZE)

  /** What one header line adds. */
  method ReadLine(line: seq<byte>, m: Meta) returns (m': Meta)
    ensures m' == LineMeta(line, m)
  {
    hide Find, ParseDecimal, TrimLeft;
    var isLength := CheckPrefix(line, CONTENT_LENGTH);
    if isLength {
      var n := ReadDecimal(TrimLeft(line[|CONTENT_LENGTH|..]));
      return m.(length := n);
    }
    var isEncoding := CheckPrefix(line, TRANSFER_ENCODING);
    if isEncoding {
      var at := Search(line[|TRANSFER_ENCODING|..], CHUNKED, 0);
      if at.Some? {
        return m.(chunked := true);
      }
    }
    return m;
  }

  /** The header loop. */
  method ReadHeaders(h: seq<byte>) returns (m: Meta)
    ensures m == ScanHeaders(h, 0, NO_META)
  {
    hide Find, ParseDecimal, TrimLeft, LineMeta;
    m := NO_META;
    var pos := 0;
    while pos < |h|
      invariant ScanHeaders(h, 0, NO_META) == ScanHeaders(h, pos, m)
      decreases |h| - pos
    {
      var eol := Search(h, CRLF, pos);
      if eol.None? {
        return;
      }
      m := ReadLine(h[pos..eol.value], m);
      pos := eol.value + 2;
    }
  }

  // ----- Reference: responses -----

  /** `Overflows`: the end of the body or of a chunk is not a 64-bit number and, wrapped, is found in the buffer. */
  datatype Response = Incomplete | Overflows | Complete(status: nat, body: seq<byte>, consumed: nat)

  function StatusAt(s: seq<byte>, sp: nat): nat
    requires sp + 4 <= |s|
  {
    if IsDigit(s[sp + 1]) && IsDigit(s[sp + 2]) && IsDigit(s[sp + 3]) then
      Digit(s[sp + 1]) * 100 + Digit(s[sp + 2]) * 10 + Digit(s[sp + 3])
    else 502
  }

  function MetaOf(s: seq<byte>, end: nat): Meta
    requires end + 2 <= |s|
  {
    ScanHeaders(s[..end + 2], 0, NO_META)
  }

  function BodyLength(m: Meta): nat { if m.length == NO_SIZE then 0 else m.length }

  /** The body after complete headers: `end` is where the blank line starts. */
  function ParseBody(s: seq<byte>, end: nat, status: nat): (r: Response)
    requires end + 4 <= |s|
    ensures r.Complete? ==> r.consumed <= |s|
  {
    var m, start := MetaOf(s, end), end + 4;
    if !m.chunked then
      if |s| < (start + BodyLength(m)) % M64 then Incomplete
      else if start + BodyLength(m) >= M64 then Overflows
      else Complete(status, s[start..start + BodyLength(m)], start + BodyLength(m))
    else
      match DecodeChunks(s, start)
      case More => Incomplete
      case Wraps => Overflows
      case Malformed => Complete(if status == 0 then 502 else status, [], |s|)
      case Done(body, consumed) => Complete(status, body, consumed)
  }

  function ParseResponse(s: seq<byte>): (r: Response)
    ensures r.Complete? ==> r.consumed <= |s|
  {
    var end, sp := Find(s, CRLFCRLF, 0), Find(s, [SPACE], 0);
    if end.None? || sp.None? || sp.value + 4 > |s| then Incomplete
    else ParseBody(s, end.value, StatusAt(s, sp.value))
  }

  // ----- The source's algorithm -----

  /** The view that is returned: the body is a range of the buffer. */
  datatype View = View(complete: bool, overflows: bool, status: nat, start: nat, length: nat, consumed: nat)

  const NOT_YET: View := View(false, false, 0, 0, 0, 0)

  /** The view denotes the reference result, over the buffer contents `now` that held `was` before. */
  ghost predicate Denotes(v: View, now: seq<byte>, was: seq<byte>, r: Response)
  {
    match r
    case Incomplete => !v.complete && !v.overflows && now == was
    case Overflows => v.overflows && now == was
    case Complete(status, body, consumed) =>
      && v.complete && !v.overflows && v.status == status && v.consumed == consumed <= |now| == |was|
      && v.start + v.length <= |now| && now[v.start..v.start + v.length] == body
      && now[consumed..] == was[consumed..]
  }

  /** The dry run: are all chunks there, or is one malformed? */
  method DryRun(s: seq<byte>, start: nat) returns (c: Chunks)
    requires start <= |s|
    ensures c == DecodeChunks(s, start) || (c.Done? && DecodeChunks(s, start).Done?)
  {
    hide PieceAt, DecodeChunks, Prepend;
    var rp := start;
    ghost var skipped: seq<byte> := [];
    PrependNothing(DecodeChunks(s, start));
    while true
      invariant start <= rp <= |s| && DecodeChunks(s, start) == Prepend(skipped, DecodeChunks(s, rp))
      decreases |s| - rp
    {
      var piece := ReadPiece(s, rp);
      ChunksUnfold(s, rp);
      PrependKind(skipped, DecodeChunks(s, rp));
      match piece {
        case Unfinished => return More;
        case Bad => return Malformed;
        case Huge(_) => return Wraps;
        case Final(consumed) => return Done([], consumed);
        case Chunk(data, size) =>
          PrependTwice(skipped, s[data..data + size], DecodeChunks(s, data + size + 2));
          skipped := skipped + s[data..data + size];
          rp := data + size + 2;
      }
    }
  }

  /** One step of the definition. */
  lemma ChunksUnfold(s: seq<byte>, p: nat)
    requires p <= |s|
    ensures var c, d := PieceAt(s, p), DecodeChunks(s, p);
      match c
      case Unfinished => d == More
      case Bad => d == Malformed
      case Huge(_) => d == Wraps
      case Final(consumed) => d == Done([], consumed)
      case Chunk(data, size) => d == Prepend(s[data..data + size], DecodeChunks(s, data + size + 2))
  {
  }

  lemma PrependNothing(c: Chunks)
    ensures Prepend([], c) == c
  {
    if c.Done? {
      assert [] + c.body == c.body;
    }
  }

  lemma PrependKind(a: seq<byte>, c: Chunks)
    ensures if c.Done? then Prepend(a, c).Done? else Prepend(a, c) == c
  {
  }

  lemma PrependTwice(a: seq<byte>, b: seq<byte>, c: Chunks)
    ensures Prepend(a, Prepend(b, c)) == Prepend(a + b, c)
  {
    if c.Done? {
      assert a + (b + c.body) == (a + b) + c.body;
    }
  }

  /** The state of the decoding pass: decoded bytes in front, unread bytes untouched, and the write
      cursor never ahead of the read cursor. */
  ghost predicate Decoding(now: seq<byte>, was: seq<byte>, start: nat, wp: nat, rp: nat)
  {
    && start <= wp <= rp <= |now| == |was|
    && now[rp..] == was[rp..]
    && DecodeChunks(was, start) == Prepend(now[start..wp], DecodeChunks(was, rp))
  }

  /** Moves one chunk's data down to the write cursor (`memmove`). */
  method MoveDown(buf: array<byte>, wp: nat, data: nat, size: nat)
    requires wp <= data && data + size <= buf.Length
    modifies buf
    ensures buf[..wp] == old(buf[..wp])
    ensures buf[wp..wp + size] == old(buf[data..data + size])
    ensures buf[data + size..] == old(buf[data + size..])
  {
    ghost var before := buf[..];
    forall k | 0 <= k < size {
      buf[wp + k] := buf[data + k];
    }
    assert buf[..wp] == before[..wp];
    assert buf[data + size..] == before[data + size..];
  }

  /** The decoding pass retraces the dry run on the buffer it is overwriting. */
  method DecodeInPlace(buf: array<byte>, start: nat, status: nat) returns (v: View)
    requires start <= buf.Length
    requires DecodeChunks(buf[..], start).Done? || DecodeChunks(buf[..], start).Malformed?
    modifies buf
    ensures var c := DecodeChunks(old(buf[..]), start);
      Denotes(v, buf[..], old(buf[..]),
        if c.Done? then Complete(status, c.body, c.consumed)
        else Complete(if status == 0 then 502 else status, [], buf.Length))
  {
    hide PieceAt, DecodeChunks, Decoding, Denotes;
    ghost var was := buf[..];
    var rp: nat, wp: nat := start, start;
    StartDecoding(was, start);
    while true
      invariant start <= wp <= rp <= buf.Length && Decoding(buf[..], was, start, wp, rp)
      decreases buf.Length - rp
    {
      ghost var now := buf[..];
      DecodingMeans(now, was, start, wp, rp);
      var piece := ReadPiece(buf[..], rp);
      if piece.Bad? {
        v := View(true, false, if status == 0 then 502 else status, start, 0, buf.Length);
        BadDenotes(v, now, was, start, if status == 0 then 502 else status);
        return;
      }
      if piece.Final? {
        v := View(true, false, status, start, wp - start, piece.consumed);
        FinalDenotes(v, now, was, start, wp, rp, status);
        return;
      }
      // The dry run has seen the whole of this piece: it can be neither unfinished nor huge.
      assert piece.Chunk?;
      MoveDown(buf, wp, piece.data, piece.size);
      DecodedChunk(now, buf[..], was, start, wp, rp, piece.data, piece.size);
      wp := wp + piece.size;
      rp := piece.data + piece.size + 2;
    }
  }

  lemma StartDecoding(was: seq<byte>, start: nat)
    requires start <= |was|
    ensures Decoding(was, was, start, start, start)
  {
    var c := DecodeChunks(was, start);
    assert was[start..start] == [];
    if c.Done? {
      assert [] + c.body == c.body;
    }
  }

  lemma BadDenotes(v: View, now: seq<byte>, was: seq<byte>, start: nat, status: nat)
    requires |now| == |was| && start <= |now| && v == View(true, false, status, start, 0, |now|)
    ensures Denotes(v, now, was, Complete(status, [], |now|))
  {
  }

  lemma FinalDenotes(v: View, now: seq<byte>, was: seq<byte>, start: nat, wp: nat, rp: nat, status: nat)
    requires Decoding(now, was, start, wp, rp) && PieceAt(was, rp).Final?
    requires v == View(true, false, status, start, wp - start, PieceAt(was, rp).consumed)
    ensures Denotes(v, now, was, Complete(status, now[start..wp], PieceAt(was, rp).consumed))
  {
    SubSuffix(now, was, rp, PieceAt(was, rp).consumed, |now|);
  }

  /** What the piece at the read cursor says about the whole, and that the overwritten buffer still
      shows the same piece there. */
  lemma DecodingMeans(now: seq<byte>, was: seq<byte>, start: nat, wp: nat, rp: nat)
    requires Decoding(now, was, start, wp, rp)
    ensures |now| == |was| && PieceAt(now, rp) == PieceAt(was, rp)
    ensures match PieceAt(was, rp)
      case Unfinished => DecodeChunks(was, start) == More
      case Bad => DecodeChunks(was, start) == Malformed
      case Huge(_) => DecodeChunks(was, start) == Wraps
      case Final(consumed) => DecodeChunks(was, start) == Done(now[start..wp], consumed)
      case Chunk(data, size) =>
        DecodeChunks(was, rp) == Prepend(was[data..data + size], DecodeChunks(was, data + size + 2))
  {
    hide PieceAt;
    PieceSuffix(now, was, rp);
    assert now[start..wp] + [] == now[start..wp];
  }

  lemma DecodedChunk(before: seq<byte>, now: seq<byte>, was: seq<byte>, start: nat, wp: nat, rp: nat, data: nat,
    size: nat)
    requires Decoding(before, was, start, wp, rp) && |now| == |before|
    requires rp <= data - 2 && data + size + 2 <= |was| && wp <= data
    requires now[..wp] == before[..wp] && now[wp..wp + size] == before[data..data + size]
    requires now[data + size..] == before[data + size..]
    requires DecodeChunks(was, rp) == Prepend(was[data..data + size], DecodeChunks(was, data + size + 2))
    ensures Decoding(now, was, start, wp + size, data + size + 2)
  {
    hide DecodeChunks;
    var chunk, rest := was[data..data + size], DecodeChunks(was, data + size + 2);
    SubSuffix(before, was, rp, data, data + size);
    SubSuffix(before, was, rp, data + size + 2, |was|);
    SubSuffix(now, before, data + size, data + size + 2, |now|);
    PrependTwice(before[start..wp], chunk, rest);
    assert now[start..wp] == now[..wp][start..] && before[start..wp] == before[..wp][start..];
    assert now[start..wp + size] == before[start..wp] + chunk;
  }

  /** `parse_http_response`: for every buffer the result is the reference result on the original
      bytes; nothing is written unless the response is complete, and nothing behind it ever. */
  method ParseInPlace(buf: array<byte>) returns (v: View)
    modifies buf
    ensures Denotes(v, buf[..], old(buf[..]), ParseResponse(old(buf[..])))
  {
    hide DecodeChunks, ScanHeaders, Find;
    ghost var was := buf[..];
    var end := Search(buf[..], CRLFCRLF, 0);
    if end.None? {
      return NOT_YET;
    }
    var sp := Search(buf[..], [SPACE], 0);
    if sp.None? || sp.value + 4 > buf.Length {
      return NOT_YET;
    }
    var status := StatusAt(buf[..], sp.value);
    var start := end.value + 4;
    assert buf[..][..end.value + 2] == buf[..end.value + 2];
    var m := ReadHeaders(buf[..end.value + 2]);
    if !m.chunked {
      var length := if m.length == NO_SIZE then 0 else m.length;
      if buf.Length < (start + length) % M64 {
        return NOT_YET;
      }
      if start + length >= M64 {
        return NOT_YET.(overflows := true);
      }
      return View(true, false, status, start, length, start + length);
    }
    var c := DryRun(buf[..], start);
    if c.More? {
      return NOT_YET;
    }
    if c.Wraps? {
      return NOT_YET.(overflows := true);
    }
    v := DecodeInPlace(buf, start, status);
  }
}
