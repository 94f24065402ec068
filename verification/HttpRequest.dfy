/**
 The request builders `build_http_request` and `build_ws_upgrade`, writing into a bounded span, and
 what a peer reads back from the bytes they write.
 */
module HttpRequest {
  import opened Arith
  import opened Bits
  import opened HttpText
  import opened HttpResponse
  import opened HttpLines
  import opened Wrappers

  // ----- The request -----

  datatype Method = Get | Post | Delete | Put

  function MethodName(m: Method): seq<byte>
  {
    match m
    case Get => Ascii("GET")
    case Post => Ascii("POST")
    case Delete => Ascii("DELETE")
    case Put => Ascii("PUT")
  }

  const HTTP_HOST: seq<byte> := Ascii(" HTTP/1.1") + CRLF + Ascii("Host: ")
  const LENGTH_NAME: seq<byte> := Ascii("Content-Length: ")

  function RequestHead(m: Method, host: seq<byte>, path: seq<byte>): seq<byte>
  {
    MethodName(m) + [SPACE] + path + HTTP_HOST + host + CRLF
  }

  function LengthLine(body: seq<byte>): seq<byte>
  {
    if body == [] then [] else LENGTH_NAME + DecimalDigits(|body|) + CRLF
  }

  /** The request that `build_http_request` is to write. */
  function Request(m: Method, host: seq<byte>, path: seq<byte>, headers: seq<seq<byte>>, body: seq<byte>): seq<byte>
  {
    RequestHead(m, host, path) + Lines(headers) + LengthLine(body) + CRLF + body
  }

  /** The digits of `v`, none for zero, where the number is written from its end. */
  function Leading(v: nat): seq<byte>
  {
    if v == 0 then [] else DecimalDigits(v)
  }

  lemma LeadingStep(v: nat, tail: seq<byte>)
    ensures DecimalDigits(v) + tail == Leading(v / 10) + ([48 + v % 10] + tail)
  {
    LastDigit(v);
    hide DecimalDigits, Leading;
    var init, last := Leading(v / 10), [48 + v % 10];
    assert (init + last) + tail == init + (last + tail);
  }

  lemma LastDigit(v: nat)
    ensures DecimalDigits(v) == Leading(v / 10) + [48 + v % 10]
  {
    if v < 10 {
      assert v / 10 == 0 && v % 10 == v;
    }
  }

  /** The formatting loop: digits are written from the end of a 24-byte scratch array. */
  method FormatDecimal(n: nat) returns (digits: seq<byte>)
    requires n < M64
    ensures digits == DecimalDigits(n)
  {
    hide DecimalDigits, Pow10;
    var num := new byte[24];
    FitsScratch(n);
    var v: nat, p: nat := n / 10, 23;
    num[p] := 48 + n % 10;
    LeadingStep(n, []);
    assert num[p..] == [48 + n % 10] + [];
    assert DecimalDigits(n) + [] == DecimalDigits(n);
    while v != 0
      invariant p <= 23 && v < Pow10(p)
      invariant DecimalDigits(n) == Leading(v) + num[p..]
    {
      ghost var tail := num[p..];
      LeadingStep(v, tail);
      RoomForDigit(v, p);
      p := p - 1;
      num[p] := 48 + v % 10;
      assert num[p..] == [48 + v % 10] + tail;
      v := v / 10;
    }
    return num[p..];
  }

  lemma RoomForDigit(v: nat, p: nat)
    requires 0 < v < Pow10(p)
    ensures p > 0 && v / 10 < Pow10(p - 1)
  {
  }

  function Pow10(k: nat): (p: nat)
    ensures p >= 1
  {
    if k == 0 then 1 else 10 * Pow10(k - 1)
  }

  lemma FitsScratch(n: nat)
    requires n < M64
    ensures n / 10 < Pow10(23)
  {
    assert Pow10(5) == 100000;
    assert Pow10(10) == 100000 * Pow10(5);
    assert Pow10(15) == 100000 * Pow10(10);
    assert Pow10(20) == 100000 * Pow10(15);
    assert Pow10(23) == 1000 * Pow10(20);
  }

  /** `build_http_request`: all of the request, or 0 when it does not fit. */
  method BuildRequest(dst: array<byte>, m: Method, host: seq<byte>, path: seq<byte>,
                      headers: seq<seq<byte>>, body: seq<byte>) returns (n: nat)
    requires |body| < M64
    modifies dst
    ensures n == 0 <==> |Request(m, host, path, headers, body)| > dst.Length
    ensures n > 0 ==> n <= dst.Length && dst[..n] == Request(m, host, path, headers, body)
  {
    hide MethodName, Lines, DecimalDigits;
    assert dst[..0] == [];
    ghost var head := RequestHead(m, host, path);
    var ok: bool, o: nat := BuildHead(dst, m, host, path);
    if !ok {
      return 0;
    }
    var i := 0;
    assert headers[..0] == [] && Lines([]) == [] by { LinesNone(); }
    assert head + Lines(headers[..0]) == head;
    while i < |headers|
      invariant i <= |headers| && o <= dst.Length
      invariant dst[..o] == head + Lines(headers[..i])
      invariant ok
    {
      LinesGrow(headers, i);
      ghost var done := head + Lines(headers[..i]);
      ok, o := HttpText.Put(dst, o, headers[i], done);
      if !ok {
        return 0;
      }
      ok, o := HttpText.Put(dst, o, CRLF, done + headers[i]);
      if !ok {
        return 0;
      }
      assert (head + Lines(headers[..i])) + headers[i] + CRLF == head + Lines(headers[..i + 1]);
      i := i + 1;
    }
    assert headers[..|headers|] == headers;
    n := BuildTail(dst, o, head + Lines(headers), body);
  }

  /** The request line and the Host header. */
  method BuildHead(dst: array<byte>, m: Method, host: seq<byte>, path: seq<byte>) returns (ok: bool, o: nat)
    modifies dst
    ensures ok <==> |RequestHead(m, host, path)| <= dst.Length
    ensures ok ==> o <= dst.Length && dst[..o] == RequestHead(m, host, path)
  {
    hide MethodName;
    var name := MethodName(m);
    assert dst[..0] == [] && [] + name == name;
    ok, o := HttpText.Put(dst, 0, name, []);
    if !ok { return; }
    ok, o := HttpText.Put(dst, o, [SPACE], name);
    if !ok { return; }
    ok, o := HttpText.Put(dst, o, path, name + [SPACE]);
    if !ok { return; }
    ok, o := HttpText.Put(dst, o, HTTP_HOST, name + [SPACE] + path);
    if !ok { return; }
    ok, o := HttpText.Put(dst, o, host, name + [SPACE] + path + HTTP_HOST);
    if !ok { return; }
    ok, o := HttpText.Put(dst, o, CRLF, name + [SPACE] + path + HTTP_HOST + host);
  }

  /** The length line, if there is a body. */
  method BuildLength(dst: array<byte>, o: nat, ghost done: seq<byte>, body: seq<byte>) returns (ok: bool, at: nat)
    requires o <= dst.Length && dst[..o] == done && |body| < M64
    modifies dst
    ensures ok <==> |done + LengthLine(body)| <= dst.Length
    ensures ok ==> at <= dst.Length && dst[..at] == done + LengthLine(body)
  {
    hide DecimalDigits;
    ok, at := true, o;
    if body == [] {
      assert done + LengthLine(body) == done;
      return;
    }
    var digits := FormatDecimal(|body|);
    assert done + LENGTH_NAME + digits + CRLF == done + LengthLine(body);
    ok, at := HttpText.Put(dst, at, LENGTH_NAME, done);
    if !ok { return; }
    ok, at := HttpText.Put(dst, at, digits, done + LENGTH_NAME);
    if !ok { return; }
    ok, at := HttpText.Put(dst, at, CRLF, done + LENGTH_NAME + digits);
  }

  /** The length line, the blank line and the body. */
  method BuildTail(dst: array<byte>, o: nat, ghost done: seq<byte>, body: seq<byte>) returns (n: nat)
    requires o <= dst.Length && dst[..o] == done && |body| < M64
    modifies dst
    ensures n == 0 <==> |done + LengthLine(body) + CRLF + body| > dst.Length
    ensures n > 0 ==> n <= dst.Length && dst[..n] == done + LengthLine(body) + CRLF + body
  {
    hide LengthLine;
    var ok, at := BuildLength(dst, o, done, body);
    if !ok { return 0; }
    ghost var sofar := done + LengthLine(body);
    ok, at := HttpText.Put(dst, at, CRLF, sofar);
    if !ok { return 0; }
    assert body == [] ==> sofar + CRLF + body == sofar + CRLF;
    if body != [] {
      ok, at := HttpText.Put(dst, at, body, sofar + CRLF);
      if !ok { return 0; }
    }
    return at;
  }

  // ----- What the peer reads -----

  /** A caller's header line that does not itself frame the body. */
  predicate Neutral(line: seq<byte>)
  {
    Clean(line) && !IStartsWith(line, CONTENT_LENGTH) && !IStartsWith(line, TRANSFER_ENCODING)
  }

  function RequestLines(m: Method, host: seq<byte>, path: seq<byte>, headers: seq<seq<byte>>,
    body: seq<byte>): seq<seq<byte>>
  {
    [MethodName(m) + [SPACE] + path + Ascii(" HTTP/1.1"), Ascii("Host: ") + host] + headers
    + (if body == [] then [] else [LENGTH_NAME + DecimalDigits(|body|)])
  }

  lemma RequestIsLines(m: Method, host: seq<byte>, path: seq<byte>, headers: seq<seq<byte>>, body: seq<byte>)
    ensures Request(m, host, path, headers, body)
         == Lines(RequestLines(m, host, path, headers, body)) + CRLF + body
  {
    hide MethodName, DecimalDigits;
    var first, second := MethodName(m) + [SPACE] + path + Ascii(" HTTP/1.1"), Ascii("Host: ") + host;
    var head, lengths := [first, second], if body == [] then [] else [LENGTH_NAME + DecimalDigits(|body|)];
    assert Lines(head) == RequestHead(m, host, path) by {
      TwoLines(first, second);
      assert first + CRLF + second + CRLF == RequestHead(m, host, path);
    }
    assert Lines(lengths) == LengthLine(body) by {
      if body != [] {
        LinesNone();
        LinesSnoc([], LENGTH_NAME + DecimalDigits(|body|));
        assert [] + lengths == lengths;
      }
    }
    LinesJoin(head, headers);
    LinesJoin(head + headers, lengths);
  }

  lemma {:induction false} NeutralMeta(head: seq<seq<byte>>, headers: seq<seq<byte>>)
    requires forall i :: 0 <= i < |headers| ==> Neutral(headers[i])
    ensures LinesMeta(head + headers) == LinesMeta(head)
    decreases |headers|
  {
    if headers == [] {
      assert head + headers == head;
    } else {
      var k := |headers| - 1;
      assert (head + headers)[..|head| + k] == head + headers[..k];
      NeutralMeta(head, headers[..k]);
    }
  }

  lemma NameDiffers(line: seq<byte>, name: seq<byte>)
    requires line != [] && name != [] && Lower(line[0]) != Lower(name[0])
    ensures !IStartsWith(line, name)
  {
  }

  lemma HeadNeutral(m: Method, host: seq<byte>, path: seq<byte>)
    requires 13 !in host && 13 !in path
    ensures Neutral(MethodName(m) + [SPACE] + path + Ascii(" HTTP/1.1"))
    ensures Neutral(Ascii("Host: ") + host)
  {
    var first, second := MethodName(m) + [SPACE] + path + Ascii(" HTTP/1.1"), Ascii("Host: ") + host;
    assert second[0] == 72;
    assert first[0] == MethodName(m)[0] && first[0] in {71, 80, 68};
    NameDiffers(first, CONTENT_LENGTH);
    NameDiffers(first, TRANSFER_ENCODING);
    NameDiffers(second, CONTENT_LENGTH);
    NameDiffers(second, TRANSFER_ENCODING);
    NoReturns(m);
  }

  lemma NoReturns(m: Method)
    ensures 13 !in MethodName(m) && 13 !in Ascii(" HTTP/1.1") && 13 !in Ascii("Host: ") && 13 !in LENGTH_NAME
  {
  }

  /** The value of a length line is read back. */
  lemma LengthMeta(n: nat, m: Meta)
    requires n < M64
    ensures LineMeta(LENGTH_NAME + DecimalDigits(n), m) == m.(length := n)
  {
    var line := LENGTH_NAME + DecimalDigits(n);
    LengthNameMatches();
    assert IStartsWith(line, CONTENT_LENGTH);
    var val := line[|CONTENT_LENGTH|..];
    assert val == [SPACE] + DecimalDigits(n);
    assert val[1..] == DecimalDigits(n);
    assert TrimLeft(val) == TrimLeft(DecimalDigits(n)) == DecimalDigits(n);
    DecimalRoundTrip(n, []);
    assert DecimalDigits(n) + [] == DecimalDigits(n);
  }

  lemma LengthNameMatches()
    ensures |LENGTH_NAME| == 16 && LENGTH_NAME[15] == SPACE && IStartsWith(LENGTH_NAME, CONTENT_LENGTH)
  {
    var name, lower := "Content-Length: ", "content-length:";
    forall i | 0 <= i < 15 ensures Lower(LENGTH_NAME[i]) == Lower(CONTENT_LENGTH[i]) {
      assert LENGTH_NAME[i] == name[i] as int % 256 && CONTENT_LENGTH[i] == lower[i] as int % 256;
      assert name[i] == lower[i] || i == 0 || i == 8;
    }
  }

  /** A peer that frames messages the way the response parser does finds the end of the headers and
      the exact body of every request the builder writes. */
  lemma RequestFraming(m: Method, host: seq<byte>, path: seq<byte>, headers: seq<seq<byte>>, body: seq<byte>)
    requires 13 !in host && 13 !in path && |body| < M64 - 1
    requires forall i :: 0 <= i < |headers| ==> Neutral(headers[i])
    ensures var s := Request(m, host, path, headers, body);
      var end := Find(s, CRLFCRLF, 0);
      && end.Some? && end.value + 4 <= |s|
      && !MetaOf(s, end.value).chunked && BodyLength(MetaOf(s, end.value)) == |body|
      && s[end.value + 4..] == body
  {
    hide Request, RequestLines, Neutral, Lines, LinesMeta, Find, MetaOf;
    var ls := RequestLines(m, host, path, headers, body);
    RequestIsLines(m, host, path, headers, body);
    RequestMeta(m, host, path, headers, body);
    HeadersRead(ls, body);
    FramingEnds(Lines(ls), body);
  }

  lemma FramingEnds(head: seq<byte>, body: seq<byte>)
    ensures (head + CRLF + body)[|head| + 2..] == body
  {
    assert |CRLF| == 2;
  }

  /** What the lines of a request say about its body. */
  lemma RequestMeta(m: Method, host: seq<byte>, path: seq<byte>, headers: seq<seq<byte>>, body: seq<byte>)
    requires 13 !in host && 13 !in path && |body| < M64 - 1
    requires forall i :: 0 <= i < |headers| ==> Neutral(headers[i])
    ensures var ls := RequestLines(m, host, path, headers, body);
      ls != [] && AllClean(ls) && !LinesMeta(ls).chunked && BodyLength(LinesMeta(ls)) == |body|
  {
    hide MethodName, DecimalDigits, IStartsWith, LineMeta;
    var ls := RequestLines(m, host, path, headers, body);
    HeadNeutral(m, host, path);
    LengthClean(|body|);
    var both := [MethodName(m) + [SPACE] + path + Ascii(" HTTP/1.1"), Ascii("Host: ") + host] + headers;
    assert forall i :: 0 <= i < |both| ==> Neutral(both[i]);
    NeutralMeta([], both);
    assert [] + both == both;
    if body != [] {
      assert ls[|ls| - 1] == LENGTH_NAME + DecimalDigits(|body|) && ls[..|ls| - 1] == both;
      LengthMeta(|body|, LinesMeta(both));
    } else {
      assert ls == both;
    }
  }

  lemma LengthClean(n: nat)
    ensures Clean(LENGTH_NAME + DecimalDigits(n))
  {
    var digits := DecimalDigits(n);
    forall i | 0 <= i < |digits| ensures digits[i] != 13 {
      assert IsDigit(digits[i]);
    }
    NoReturns(Get);
  }

  // ----- The upgrade request -----

  const UPGRADE_KEY: seq<byte> :=
    CRLF + Ascii("Upgrade: websocket") + CRLF + Ascii("Connection: Upgrade") + CRLF + Ascii("Sec-WebSocket-Key: ")
  const UPGRADE_END: seq<byte> := CRLF + Ascii("Sec-WebSocket-Version: 13") + CRLF + CRLF

  function UpgradeRequest(host: seq<byte>, path: seq<byte>, key: seq<byte>): (s: seq<byte>)
    ensures s != []
  {
    Ascii("GET ") + path + HTTP_HOST + host + UPGRADE_KEY + key + UPGRADE_END
  }

  /** `build_ws_upgrade`: all of the request, or 0 when it does not fit. */
  method BuildUpgrade(dst: array<byte>, host: seq<byte>, path: seq<byte>, key: seq<byte>) returns (n: nat)
    modifies dst
    ensures n == 0 <==> |UpgradeRequest(host, path, key)| > dst.Length
    ensures n > 0 ==> n <= dst.Length && dst[..n] == UpgradeRequest(host, path, key)
  {
    hide Ascii;
    var get := Ascii("GET ");
    assert dst[..0] == [] && [] + get == get;
    var ok, o := HttpText.Put(dst, 0, get, []);
    if !ok { return 0; }
    ok, o := HttpText.Put(dst, o, path, get);
    if !ok { return 0; }
    ok, o := HttpText.Put(dst, o, HTTP_HOST, get + path);
    if !ok { return 0; }
    ok, o := HttpText.Put(dst, o, host, get + path + HTTP_HOST);
    if !ok { return 0; }
    ok, o := HttpText.Put(dst, o, UPGRADE_KEY, get + path + HTTP_HOST + host);
    if !ok { return 0; }
    ok, o := HttpText.Put(dst, o, key, get + path + HTTP_HOST + host + UPGRADE_KEY);
    if !ok { return 0; }
    ok, o := HttpText.Put(dst, o, UPGRADE_END, get + path + HTTP_HOST + host + UPGRADE_KEY + key);
    if !ok { return 0; }
    return o;
  }
}
