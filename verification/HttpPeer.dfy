/**
 What a server reads from the bytes of the client: a reader of requests and header blocks written down
 independently of the builders, byte by byte, and the proof that it recovers every request (section 3 of RFC 9112).
 */
module HttpPeer {
  import opened Bits
  import opened HttpText
  import opened HttpResponse
  import opened HttpLines
  import opened HttpRequest
  import opened Wrappers

  // ----- The bytes -----

  function Spelling(m: Method): seq<byte>
  {
    match m
    case Get => [71, 69, 84]
    case Post => [80, 79, 83, 84]
    case Delete => [68, 69, 76, 69, 84, 69]
    case Put => [80, 85, 84]
  }

  /** " HTTP/1.1" */
  const VERSION_BYTES: seq<byte> := [32, 72, 84, 84, 80, 47, 49, 46, 49]

  /** "Host: " */
  const HOST_BYTES: seq<byte> := [72, 111, 115, 116, 58, 32]

  /** "Content-Length: " */
  const LENGTH_BYTES: seq<byte> := [67, 111, 110, 116, 101, 110, 116, 45, 76, 101, 110, 103, 116, 104, 58, 32]

  lemma SameAscii(text: string, bytes: seq<byte>)
    requires |text| == |bytes| && forall i :: 0 <= i < |text| ==> text[i] as int == bytes[i]
    ensures Ascii(text) == bytes
  {
    forall i | 0 <= i < |text| ensures Ascii(text)[i] == bytes[i] {
      assert Ascii(text)[i] == text[i] as int % 256;
    }
  }

  lemma SameLiterals()
    ensures Ascii(" HTTP/1.1") == VERSION_BYTES && Ascii("Host: ") == HOST_BYTES && LENGTH_NAME == LENGTH_BYTES
  {
    SameAscii(" HTTP/1.1", VERSION_BYTES);
    SameAscii("Host: ", HOST_BYTES);
    SameAscii("Content-Length: ", LENGTH_BYTES);
  }

  lemma SameNames(m: Method)
    ensures MethodName(m) == Spelling(m)
  {
    SameAscii("GET", Spelling(Get));
    SameAscii("POST", Spelling(Post));
    SameAscii("DELETE", Spelling(Delete));
    SameAscii("PUT", Spelling(Put));
  }

  // ----- Header blocks -----

  datatype Block = NoBlock | Block(lines: seq<seq<byte>>, rest: seq<byte>)

  /** Lines up to the empty one, and what follows it. */
  function ReadBlock(s: seq<byte>): (b: Block)
    ensures b.Block? ==> |b.rest| < |s|
    decreases |s|
  {
    var e := Find(s, CRLF, 0);
    if e.None? then NoBlock
    else if e.value == 0 then Block([], s[2..])
    else
      var b := ReadBlock(s[e.value + 2..]);
      if b.NoBlock? then NoBlock else b.(lines := [s[..e.value]] + b.lines)
  }

  lemma EmptyLineRead(rest: seq<byte>)
    ensures ReadBlock(CRLF + rest) == Block([], rest)
  {
    hide Find;
    LineFound([], [], rest);
    assert [] + [] + CRLF + rest == CRLF + rest;
    assert (CRLF + rest)[2..] == rest;
  }

  lemma LineRead(line: seq<byte>, more: seq<byte>)
    requires Clean(line) && ReadBlock(more).Block?
    ensures ReadBlock(line + CRLF + more) == ReadBlock(more).(lines := [line] + ReadBlock(more).lines)
  {
    hide Find;
    var s := line + CRLF + more;
    LineFound([], line, more);
    assert [] + line + CRLF + more == s;
    assert s[..|line|] == line && s[|line| + 2..] == more;
  }

  lemma {:induction false} BlockOfLines(ls: seq<seq<byte>>, rest: seq<byte>)
    requires AllClean(ls)
    ensures ReadBlock(Lines(ls) + CRLF + rest) == Block(ls, rest)
    decreases |ls|
  {
    hide Lines, ReadBlock;
    if ls == [] {
      LinesNone();
      EmptyLineRead(rest);
      assert Lines(ls) + CRLF + rest == CRLF + rest;
    } else {
      var more := Lines(ls[1..]) + CRLF + rest;
      FirstOfLines(ls);
      assert Lines(ls) + CRLF + rest == ls[0] + CRLF + more;
      BlockOfLines(ls[1..], rest);
      LineRead(ls[0], more);
      assert [ls[0]] + ls[1..] == ls;
    }
  }

  lemma FirstOfLines(ls: seq<seq<byte>>)
    requires ls != []
    ensures Lines(ls) == ls[0] + CRLF + Lines(ls[1..])
  {
    hide Lines;
    LinesNone();
    LinesSnoc([], ls[0]);
    assert [] + [ls[0]] == [ls[0]] && [] + ls[0] + CRLF == ls[0] + CRLF;
    LinesJoin([ls[0]], ls[1..]);
    assert [ls[0]] + ls[1..] == ls;
  }

  lemma {:induction false} BlockStable(s: seq<byte>, t: seq<byte>)
    requires ReadBlock(s).Block?
    ensures ReadBlock(s + t) == ReadBlock(s).(rest := ReadBlock(s).rest + t)
    decreases |s|
  {
    hide Find;
    FindStable(s, t, CRLF, 0);
    var e := Find(s, CRLF, 0).value;
    assert (s + t)[..e] == s[..e] && (s + t)[e + 2..] == s[e + 2..] + t;
    if e != 0 {
      BlockStable(s[e + 2..], t);
    }
  }

  // ----- Requests -----

  datatype Heard = Heard(name: seq<byte>, target: seq<byte>, host: seq<byte>, headers: seq<seq<byte>>, body: seq<byte>)

  datatype Got = Nothing | Got(heard: Heard, rest: seq<byte>)

  /** What the last line says about the length of the body, if it is the one to do so. */
  function SaidLength(lines: seq<seq<byte>>): Option<nat>
  {
    if lines == [] || !(LENGTH_BYTES <= lines[|lines| - 1]) then None
    else
      var digits := lines[|lines| - 1][|LENGTH_BYTES|..];
      if AllDigits(digits) then Some(DecimalValue(digits, 0)) else None
  }

  predicate RequestLine(line: seq<byte>)
  {
    var sp := Find(line, [SPACE], 0);
    && sp.Some? && sp.value + 1 + |VERSION_BYTES| <= |line|
    && line[|line| - |VERSION_BYTES|..] == VERSION_BYTES
  }

  /** The request at the front of `s`: name, target and version on the first line, the host on the second, and a body
      of the length that the last line says. */
  function ReadRequest(s: seq<byte>): (g: Got)
    ensures g.Got? ==> |g.rest| < |s|
  {
    var b := ReadBlock(s);
    if b.NoBlock? || |b.lines| < 2 || !RequestLine(b.lines[0]) || !(HOST_BYTES <= b.lines[1]) then Nothing
    else
      var first, sp := b.lines[0], Find(b.lines[0], [SPACE], 0).value;
      var length := SaidLength(b.lines[2..]);
      var headers := if length.Some? then b.lines[2..|b.lines| - 1] else b.lines[2..];
      var size := if length.Some? then length.value else 0;
      if |b.rest| < size then Nothing
      else
        Got(Heard(first[..sp], first[sp + 1..|first| - |VERSION_BYTES|], b.lines[1][|HOST_BYTES|..], headers,
                  b.rest[..size]),
            b.rest[size..])
  }

  function PeerReads(s: seq<byte>): seq<Heard>
    decreases |s|
  {
    var g := ReadRequest(s);
    if g.Nothing? then [] else [g.heard] + PeerReads(g.rest)
  }

  lemma RequestStable(s: seq<byte>, t: seq<byte>)
    requires ReadRequest(s).Got?
    ensures ReadRequest(s + t) == ReadRequest(s).(rest := ReadRequest(s).rest + t)
  {
    hide ReadBlock, RequestLine, SaidLength, Find;
    BlockStable(s, t);
    var rest := ReadBlock(s).rest;
    var length := SaidLength(ReadBlock(s).lines[2..]);
    var size := if length.Some? then length.value else 0;
    assert (rest + t)[..size] == rest[..size] && (rest + t)[size..] == rest[size..] + t;
  }

  /** From a prefix of a stream the peer reads a prefix of the requests. */
  lemma {:induction false} PeerReadsPrefix(s: seq<byte>, t: seq<byte>)
    ensures PeerReads(s) <= PeerReads(s + t)
    decreases |s|
  {
    hide ReadRequest;
    var g := ReadRequest(s);
    if g.Got? {
      RequestStable(s, t);
      PeerReadsPrefix(g.rest, t);
    }
  }

  // ----- What the client asked -----

  datatype Ask = Ask(verb: Method, path: seq<byte>, headers: seq<seq<byte>>, body: seq<byte>)

  function RequestOf(host: seq<byte>, a: Ask): seq<byte>
  {
    Request(a.verb, host, a.path, a.headers, a.body)
  }

  function HeardOf(host: seq<byte>, a: Ask): Heard
  {
    Heard(Spelling(a.verb), a.path, host, a.headers, a.body)
  }

  /** Nothing in the request ends a line early or frames the body in the place of the builder. */
  predicate CleanAsk(host: seq<byte>, a: Ask)
  {
    13 !in host && 13 !in a.path && forall i :: 0 <= i < |a.headers| ==> Neutral(a.headers[i])
  }

  lemma FirstLineRead(name: seq<byte>, path: seq<byte>)
    requires SPACE !in name
    ensures var line := name + [SPACE] + path + VERSION_BYTES;
      && RequestLine(line) && Find(line, [SPACE], 0) == Some(|name|)
      && line[..|name|] == name && line[|name| + 1..|line| - |VERSION_BYTES|] == path
  {
    hide Find;
    var line := name + [SPACE] + path + VERSION_BYTES;
    assert line[|name|..|name| + 1] == [SPACE];
    forall i | 0 <= i < |name| ensures !MatchAt(line, [SPACE], i) {
      assert line[i] == name[i];
      NoMatch(line, [SPACE], i);
    }
    FindUnique(line, [SPACE], 0, |name|);
    assert line[|line| - |VERSION_BYTES|..] == VERSION_BYTES;
  }

  lemma NeutralSaysNothing(line: seq<byte>)
    requires Neutral(line)
    ensures !(LENGTH_BYTES <= line)
  {
    if LENGTH_BYTES <= line {
      LengthFrames(line);
    }
  }

  lemma LengthFrames(line: seq<byte>)
    requires LENGTH_BYTES <= line
    ensures IStartsWith(line, CONTENT_LENGTH)
  {
    SameLiterals();
    LengthNameMatches();
    IStartsWithPrefix(LENGTH_BYTES, line[|LENGTH_BYTES|..], CONTENT_LENGTH);
    assert LENGTH_BYTES + line[|LENGTH_BYTES|..] == line;
  }

  lemma LengthSaid(headers: seq<seq<byte>>, body: seq<byte>)
    requires forall i :: 0 <= i < |headers| ==> Neutral(headers[i])
    ensures var lines := headers + (if body == [] then [] else [LENGTH_BYTES + DecimalDigits(|body|)]);
      SaidLength(lines) == if body == [] then None else Some(|body|)
  {
    hide Neutral, DecimalDigits, DecimalValue;
    if body == [] {
      assert headers + [] == headers;
      if headers != [] {
        NeutralSaysNothing(headers[|headers| - 1]);
      }
    } else {
      var line := LENGTH_BYTES + DecimalDigits(|body|);
      assert line[|LENGTH_BYTES|..] == DecimalDigits(|body|);
      DigitsHaveValue(|body|);
    }
  }

  lemma NoSpaces(m: Method)
    ensures SPACE !in Spelling(m)
  {
  }

  lemma LinesOfRequest(host: seq<byte>, a: Ask)
    requires CleanAsk(host, a)
    ensures var first := Spelling(a.verb) + [SPACE] + a.path + VERSION_BYTES;
      var lengths := if a.body == [] then [] else [LENGTH_BYTES + DecimalDigits(|a.body|)];
      var ls := [first, HOST_BYTES + host] + a.headers + lengths;
      RequestOf(host, a) == Lines(ls) + CRLF + a.body && AllClean(ls)
  {
    hide Lines, Neutral, DecimalDigits, MethodName;
    SameLiterals();
    SameNames(a.verb);
    RequestIsLines(a.verb, host, a.path, a.headers, a.body);
    HeadNeutral(a.verb, host, a.path);
    LengthClean(|a.body|);
    var ls := RequestLines(a.verb, host, a.path, a.headers, a.body);
    forall i | 0 <= i < |ls| ensures Clean(ls[i]) {
      if i < 2 + |a.headers| {
        assert Neutral(ls[i]);
        NeutralIsClean(ls[i]);
      }
    }
  }

  lemma NeutralIsClean(line: seq<byte>)
    requires Neutral(line)
    ensures Clean(line)
  {
  }

  /** Every request comes back from its bytes: name, target, host, headers and body. */
  lemma RequestRead(host: seq<byte>, a: Ask, rest: seq<byte>)
    requires CleanAsk(host, a)
    ensures ReadRequest(RequestOf(host, a) + rest) == Got(HeardOf(host, a), rest)
  {
    hide Lines, Neutral, DecimalDigits, RequestOf, ReadBlock, RequestLine, SaidLength, Find, AllClean;
    var name, body := Spelling(a.verb), a.body;
    var lengths := if body == [] then [] else [LENGTH_BYTES + DecimalDigits(|body|)];
    var ls := [name + [SPACE] + a.path + VERSION_BYTES, HOST_BYTES + host] + a.headers + lengths;
    LinesOfRequest(host, a);
    BlockOfLines(ls, body + rest);
    assert Lines(ls) + CRLF + body + rest == Lines(ls) + CRLF + (body + rest);
    NoSpaces(a.verb);
    FirstLineRead(name, a.path);
    LengthSaid(a.headers, body);
    assert ls[2..] == a.headers + lengths;
    assert ls[1][|HOST_BYTES|..] == host && HOST_BYTES <= ls[1];
    assert body != [] ==> ls[2..|ls| - 1] == a.headers;
    assert (body + rest)[..|body|] == body && (body + rest)[|body|..] == rest;
  }

  /** Requests back to back. */
  function Stream(host: seq<byte>, asks: seq<Ask>): seq<byte>
  {
    if asks == [] then [] else Stream(host, asks[..|asks| - 1]) + RequestOf(host, asks[|asks| - 1])
  }

  function AllHeard(host: seq<byte>, asks: seq<Ask>): seq<Heard>
  {
    seq(|asks|, i requires 0 <= i < |asks| => HeardOf(host, asks[i]))
  }

  predicate AllCleanAsks(host: seq<byte>, asks: seq<Ask>)
  {
    forall i :: 0 <= i < |asks| ==> CleanAsk(host, asks[i])
  }

  lemma {:induction false} StreamRead(host: seq<byte>, asks: seq<Ask>, rest: seq<byte>)
    requires AllCleanAsks(host, asks)
    ensures PeerReads(Stream(host, asks) + rest) == AllHeard(host, asks) + PeerReads(rest)
    decreases |asks|
  {
    hide ReadRequest, RequestOf, CleanAsk, HeardOf;
    if asks == [] {
      assert Stream(host, asks) + rest == rest;
    } else {
      var init, last := asks[..|asks| - 1], asks[|asks| - 1];
      var more := RequestOf(host, last) + rest;
      assert Stream(host, asks) + rest == Stream(host, init) + more;
      StreamRead(host, init, more);
      RequestRead(host, last, rest);
      assert AllHeard(host, asks) == AllHeard(host, init) + [HeardOf(host, last)];
    }
  }

  /** From any prefix of the stream the peer reads a prefix of the requests, and from all of it all of them. */
  lemma PeerHears(host: seq<byte>, asks: seq<Ask>, got: seq<byte>)
    requires AllCleanAsks(host, asks) && got <= Stream(host, asks)
    ensures PeerReads(got) <= AllHeard(host, asks)
    ensures got == Stream(host, asks) ==> PeerReads(got) == AllHeard(host, asks)
  {
    hide Stream, AllHeard, PeerReads;
    var all := Stream(host, asks);
    StreamRead(host, asks, []);
    assert all + [] == all;
    NothingRead();
    assert AllHeard(host, asks) + [] == AllHeard(host, asks);
    PeerReadsPrefix(got, all[|got|..]);
    assert got + all[|got|..] == all;
  }

  lemma NothingRead()
    ensures PeerReads([]) == []
  {
  }

  // ----- The upgrade request -----

  function UpgradeLines(host: seq<byte>, path: seq<byte>, key: seq<byte>): seq<seq<byte>>
  {
    [ Spelling(Get) + [SPACE] + path + VERSION_BYTES,
      HOST_BYTES + host,
      Ascii("Upgrade: websocket"),
      Ascii("Connection: Upgrade"),
      Ascii("Sec-WebSocket-Key: ") + key,
      Ascii("Sec-WebSocket-Version: 13") ]
  }

  /** A server reads the upgrade request as these lines (section 4.1 of RFC 6455) and nothing else. */
  lemma UpgradeRead(host: seq<byte>, path: seq<byte>, key: seq<byte>, rest: seq<byte>)
    requires 13 !in host && 13 !in path && 13 !in key
    ensures ReadBlock(UpgradeRequest(host, path, key) + rest) == Block(UpgradeLines(host, path, key), rest)
  {
    hide Lines, ReadBlock, Find;
    var ls := UpgradeLines(host, path, key);
    UpgradeIsLines(host, path, key);
    UpgradeClean(host, path, key);
    BlockOfLines(ls, rest);
  }

  lemma SixLines(ls: seq<seq<byte>>)
    requires |ls| == 6
    ensures Lines(ls) == ls[0] + CRLF + ls[1] + CRLF + ls[2] + CRLF + ls[3] + CRLF + ls[4] + CRLF + ls[5] + CRLF
  {
    hide Lines;
    LinesNone();
    LinesGrow(ls, 0);
    LinesGrow(ls, 1);
    LinesGrow(ls, 2);
    LinesGrow(ls, 3);
    LinesGrow(ls, 4);
    LinesGrow(ls, 5);
    assert ls[..0] == [] && ls[..6] == ls;
    assert [] + ls[0] == ls[0];
  }

  lemma FourParts(p: seq<byte>, a: seq<byte>, b: seq<byte>, c: seq<byte>, d: seq<byte>)
    ensures p + (a + b + c + d) == p + a + b + c + d
    ensures p + (a + b + c) == p + a + b + c
  {
  }

  lemma SixParts(p: seq<byte>, a: seq<byte>, b: seq<byte>, c: seq<byte>, d: seq<byte>, e: seq<byte>, f: seq<byte>)
    ensures p + (a + b + c + d + e + f) == p + a + b + c + d + e + f
  {
    FourParts(p, a, b, c, d);
    FourParts(p, a + b + c + d, e, f, []);
    assert a + b + c + d + e + f + [] == a + b + c + d + e + f;
  }

  lemma UpgradeIsLines(host: seq<byte>, path: seq<byte>, key: seq<byte>)
    ensures UpgradeRequest(host, path, key) == Lines(UpgradeLines(host, path, key)) + CRLF
  {
    hide Lines, Ascii;
    var ls := UpgradeLines(host, path, key);
    SixLines(ls);
    SameLiterals();
    SameAscii("GET ", [71, 69, 84, 32]);
    assert Spelling(Get) + [SPACE] == [71, 69, 84, 32];
    var first := Ascii("GET ") + path;
    FourParts(first, VERSION_BYTES, CRLF, HOST_BYTES, []);
    var second := first + HTTP_HOST + host;
    assert second == ls[0] + CRLF + ls[1] by { FourParts(ls[0] + CRLF, HOST_BYTES, host, [], []); }
    SixParts(second, CRLF, ls[2], CRLF, ls[3], CRLF, Ascii("Sec-WebSocket-Key: "));
    var third := second + UPGRADE_KEY + key;
    assert third == second + CRLF + ls[2] + CRLF + ls[3] + CRLF + ls[4];
    FourParts(third, CRLF, ls[5], CRLF, CRLF);
  }

  lemma UpgradeClean(host: seq<byte>, path: seq<byte>, key: seq<byte>)
    requires 13 !in host && 13 !in path && 13 !in key
    ensures AllClean(UpgradeLines(host, path, key))
  {
    NoReturn("Upgrade: websocket");
    NoReturn("Connection: Upgrade");
    NoReturn("Sec-WebSocket-Key: ");
    NoReturn("Sec-WebSocket-Version: 13");
    hide Ascii;
    var ls := UpgradeLines(host, path, key);
    forall i | 0 <= i < |ls| ensures Clean(ls[i]) {
    }
  }

  lemma NoReturn(text: string)
    requires forall i :: 0 <= i < |text| ==> text[i] as int % 256 != 13
    ensures 13 !in Ascii(text)
  {
  }
}
