/**
 What a server sends, spelled out in bytes, and what the client's parser makes of it: status, length and chunked
 framing, with names in any mix of cases (sections 4 and 6 of RFC 9112).
 */
module HttpServing {
  import opened Arith
  import opened Bits
  import opened HttpText
  import opened HttpResponse
  import opened HttpLines
  import opened HttpLaws
  import opened Wrappers

  // ----- Names -----

  /** "content-length:" */
  const LENGTH_BYTES: seq<byte> := [99, 111, 110, 116, 101, 110, 116, 45, 108, 101, 110, 103, 116, 104, 58]

  /** "transfer-encoding:" */
  const ENCODING_BYTES: seq<byte> :=
    [116, 114, 97, 110, 115, 102, 101, 114, 45, 101, 110, 99, 111, 100, 105, 110, 103, 58]

  /** "chunked" */
  const CHUNKED_BYTES: seq<byte> := [99, 104, 117, 110, 107, 101, 100]

  lemma SameLiterals()
    ensures CONTENT_LENGTH == LENGTH_BYTES && TRANSFER_ENCODING == ENCODING_BYTES && CHUNKED == CHUNKED_BYTES
  {
    var length, encoding, chunked := "content-length:", "transfer-encoding:", "chunked";
    forall i | 0 <= i < |length| ensures CONTENT_LENGTH[i] == LENGTH_BYTES[i] {
      assert CONTENT_LENGTH[i] == length[i] as int % 256;
    }
    forall i | 0 <= i < |encoding| ensures TRANSFER_ENCODING[i] == ENCODING_BYTES[i] {
      assert TRANSFER_ENCODING[i] == encoding[i] as int % 256;
    }
    forall i | 0 <= i < |chunked| ensures CHUNKED[i] == CHUNKED_BYTES[i] {
      assert CHUNKED[i] == chunked[i] as int % 256;
    }
  }

  /** `a` is the lower-case letter, or other byte, `b`; or the capital of it. */
  predicate SameLetter(a: byte, b: byte) { a == b || (97 <= b <= 122 && a + 32 == b) }

  /** `s` starts with the lower-case name `name`, in any mix of cases. */
  predicate Names(s: seq<byte>, name: seq<byte>)
  {
    |name| <= |s| && forall i :: 0 <= i < |name| ==> SameLetter(s[i], name[i])
  }

  predicate NoCapitals(name: seq<byte>)
  {
    forall i :: 0 <= i < |name| ==> !(65 <= name[i] <= 90)
  }

  /** Case folding is about the 26 letters and nothing else. */
  lemma FoldsLetters(s: seq<byte>, name: seq<byte>)
    requires NoCapitals(name)
    ensures IStartsWith(s, name) <==> Names(s, name)
  {
    if |name| <= |s| {
      forall i | 0 <= i < |name| ensures Lower(s[i]) == Lower(name[i]) <==> SameLetter(s[i], name[i]) {
      }
    }
  }

  /** `word` occurs somewhere in `s`. */
  predicate Contains(s: seq<byte>, word: seq<byte>)
  {
    exists i :: 0 <= i <= |s| && MatchAt(s, word, i)
  }

  /** A header line that says nothing about the body: no length, and no coding in which "chunked" occurs. */
  predicate Other(line: seq<byte>)
  {
    && Clean(line) && !Names(line, LENGTH_BYTES)
    && !(Names(line, ENCODING_BYTES) && Contains(line[|ENCODING_BYTES|..], CHUNKED_BYTES))
  }

  predicate AllOther(ls: seq<seq<byte>>)
  {
    forall i :: 0 <= i < |ls| ==> Other(ls[i])
  }

  lemma Found(s: seq<byte>, word: seq<byte>)
    ensures Find(s, word, 0).Some? <==> Contains(s, word)
  {
    var r := Find(s, word, 0);
    if r.Some? {
      assert MatchAt(s, word, r.value);
    }
  }

  lemma OtherMeta(line: seq<byte>, m: Meta)
    requires Other(line)
    ensures LineMeta(line, m) == m
  {
    hide IStartsWith, Names, Find, ParseDecimal, TrimLeft, Contains;
    SameLiterals();
    FoldsLetters(line, LENGTH_BYTES);
    FoldsLetters(line, ENCODING_BYTES);
    if IStartsWith(line, TRANSFER_ENCODING) {
      NamesFit(line, ENCODING_BYTES);
      Found(line[|ENCODING_BYTES|..], CHUNKED_BYTES);
    }
  }

  lemma NamesFit(s: seq<byte>, name: seq<byte>)
    requires Names(s, name)
    ensures |name| <= |s|
  {
  }

  lemma {:induction false} OthersMeta(head: seq<seq<byte>>, ls: seq<seq<byte>>)
    requires AllOther(ls)
    ensures LinesMeta(head + ls) == LinesMeta(head) && AllClean(ls)
    decreases |ls|
  {
    hide Other, LineMeta, Clean;
    if ls == [] {
      assert head + ls == head;
    } else {
      var k := |ls| - 1;
      assert (head + ls)[..|head| + k] == head + ls[..k];
      OthersMeta(head, ls[..k]);
      OtherMeta(ls[k], LinesMeta(head));
      OtherIsClean(ls[k]);
      assert forall i :: 0 <= i < k ==> ls[i] == ls[..k][i];
    }
  }

  lemma OtherIsClean(line: seq<byte>)
    requires Other(line)
    ensures Clean(line)
  {
  }

  // ----- Status -----

  function ThreeDigits(n: nat): seq<byte>
    requires n < 1000
  {
    [48 + n / 100, 48 + n / 10 % 10, 48 + n % 10]
  }

  /** From 100 on these are the decimal digits of the number. */
  lemma AreDecimal(n: nat)
    requires 100 <= n < 1000
    ensures ThreeDigits(n) == DecimalDigits(n)
  {
    assert DecimalDigits(n / 100) == [48 + n / 100];
    assert DecimalDigits(n / 10) == DecimalDigits(n / 10 / 10) + [48 + n / 10 % 10];
    assert n / 10 / 10 == n / 100;
  }

  /** A version without a space, a space, three bytes and the rest of the line. */
  function FirstLineOf(version: seq<byte>, code: seq<byte>, reason: seq<byte>): seq<byte>
  {
    version + [SPACE] + code + reason
  }

  lemma CodePosition(version: seq<byte>, code: seq<byte>, reason: seq<byte>)
    requires SPACE !in version && |code| == 3
    ensures var line := FirstLineOf(version, code, reason);
      && Find(line, [SPACE], 0) == Some(|version|) && |version| + 4 <= |line|
      && line[|version| + 1] == code[0] && line[|version| + 2] == code[1] && line[|version| + 3] == code[2]
  {
    var line := FirstLineOf(version, code, reason);
    assert line[|version|..|version| + 1] == [SPACE];
    forall i | 0 <= i < |version| ensures !MatchAt(line, [SPACE], i) {
      assert line[i] == version[i];
      NoMatch(line, [SPACE], i);
    }
    FindUnique(line, [SPACE], 0, |version|);
  }

  /** Every three-digit status is read as its number. */
  lemma StatusNumber(version: seq<byte>, n: nat, reason: seq<byte>)
    requires SPACE !in version && n < 1000
    ensures var line := FirstLineOf(version, ThreeDigits(n), reason); StatusLine(line) && LineStatus(line) == n
  {
    hide Find;
    CodePosition(version, ThreeDigits(n), reason);
  }

  /** Anything else is a bad gateway. */
  lemma StatusGarbled(version: seq<byte>, code: seq<byte>, reason: seq<byte>)
    requires SPACE !in version && |code| == 3 && exists i :: 0 <= i < 3 && !(48 <= code[i] <= 57)
    ensures var line := FirstLineOf(version, code, reason); StatusLine(line) && LineStatus(line) == 502
  {
    hide Find;
    CodePosition(version, code, reason);
  }

  // ----- Framing -----

  function Spaces(k: nat): (s: seq<byte>)
    ensures |s| == k
  {
    seq(k, _ => SPACE)
  }

  lemma {:induction false} SpacesTrimmed(k: nat, s: seq<byte>)
    requires s == [] || s[0] != SPACE
    ensures TrimLeft(Spaces(k) + s) == s
    decreases k
  {
    if k == 0 {
      assert Spaces(0) + s == s;
    } else {
      assert (Spaces(k) + s)[1..] == Spaces(k - 1) + s;
      SpacesTrimmed(k - 1, s);
    }
  }

  /** A length line: the name, spaces, the digits and something that is no digit. */
  predicate SaysLength(line: seq<byte>, name: seq<byte>, k: nat, n: nat, tail: seq<byte>)
  {
    && Names(name, LENGTH_BYTES) && |name| == |LENGTH_BYTES| && (tail == [] || !(48 <= tail[0] <= 57))
    && line == name + Spaces(k) + DecimalDigits(n) + tail && 13 !in line
  }

  lemma LengthRead(line: seq<byte>, name: seq<byte>, k: nat, n: nat, tail: seq<byte>, m: Meta)
    requires SaysLength(line, name, k, n, tail) && n < M64
    ensures Clean(line) && LineMeta(line, m) == m.(length := n)
  {
    hide DecimalDigits, ParseDecimal, TrimLeft, IStartsWith;
    SameLiterals();
    assert Names(line, LENGTH_BYTES);
    FoldsLetters(line, LENGTH_BYTES);
    var digits := DecimalDigits(n) + tail;
    assert line[|LENGTH_BYTES|..] == Spaces(k) + digits;
    SpacesTrimmed(k, digits);
    DecimalRoundTrip(n, tail);
  }

  /** A coding line: the name and a value in which "chunked" occurs. */
  predicate SaysChunked(line: seq<byte>, name: seq<byte>, a: seq<byte>, b: seq<byte>)
  {
    Names(name, ENCODING_BYTES) && |name| == |ENCODING_BYTES| && line == name + a + CHUNKED_BYTES + b && 13 !in line
  }

  lemma CodingNames(line: seq<byte>, name: seq<byte>, value: seq<byte>)
    requires Names(name, ENCODING_BYTES) && |name| == |ENCODING_BYTES| && line == name + value
    ensures Names(line, ENCODING_BYTES) && !Names(line, LENGTH_BYTES)
  {
    assert SameLetter(name[0], ENCODING_BYTES[0]) && line[0] == name[0];
    assert !SameLetter(line[0], LENGTH_BYTES[0]);
  }

  lemma ChunkedFound(line: seq<byte>, name: seq<byte>, a: seq<byte>, b: seq<byte>)
    requires line == name + a + CHUNKED_BYTES + b
    ensures |name| <= |line| && Find(line[|name|..], CHUNKED_BYTES, 0).Some?
  {
    hide Find;
    var value := line[|name|..];
    assert value == a + CHUNKED_BYTES + b;
    assert value[|a|..|a| + |CHUNKED_BYTES|] == CHUNKED_BYTES;
    assert MatchAt(value, CHUNKED_BYTES, |a|);
  }

  lemma ChunkedRead(line: seq<byte>, name: seq<byte>, a: seq<byte>, b: seq<byte>, m: Meta)
    requires SaysChunked(line, name, a, b)
    ensures Clean(line) && LineMeta(line, m) == m.(chunked := true)
  {
    hide ParseDecimal, TrimLeft, IStartsWith, Find, Names;
    SameLiterals();
    CodingNames(line, name, a + CHUNKED_BYTES + b);
    assert line == name + (a + CHUNKED_BYTES + b);
    FoldsLetters(line, LENGTH_BYTES);
    FoldsLetters(line, ENCODING_BYTES);
    ChunkedFound(line, name, a, b);
  }

  /** The header lines of a response: those before and after the one that frames the body. */
  lemma FramedBy(first: seq<byte>, before: seq<seq<byte>>, line: seq<byte>, after: seq<seq<byte>>)
    requires Other(first) && AllOther(before) && AllOther(after) && Clean(line)
    ensures var ls := [first] + before + [line] + after;
      AllClean(ls) && ls[0] == first && LinesMeta(ls) == LineMeta(line, NO_META)
  {
    hide Other, LineMeta, Clean;
    var front := [first] + before;
    assert AllOther(front);
    OthersMeta([], front);
    assert [] + front == front && LinesMeta([]) == NO_META;
    assert (front + [line])[..|front|] == front;
    OthersMeta(front + [line], after);
  }

  /** A response that says its length is read as what the server meant: this status and this body. */
  lemma ServedLength(version: seq<byte>, n: nat, reason: seq<byte>, before: seq<seq<byte>>, line: seq<byte>,
                     name: seq<byte>, k: nat, tail: seq<byte>, after: seq<seq<byte>>, body: seq<byte>, rest: seq<byte>)
    requires SPACE !in version && n < 1000 && Other(FirstLineOf(version, ThreeDigits(n), reason))
    requires AllOther(before) && AllOther(after) && SaysLength(line, name, k, |body|, tail) && |body| < M64 - 1
    ensures var ls := [FirstLineOf(version, ThreeDigits(n), reason)] + before + [line] + after;
      |Lines(ls) + CRLF + body| < M64 ==>
        ParseResponse(Lines(ls) + CRLF + (body + rest)) == Complete(n, body, |Lines(ls) + CRLF + body|)
  {
    hide Lines, ParseResponse, LineMeta, Other, LinesMeta, SaysLength, FirstLineOf, StatusLine, LineStatus, Clean;
    var first := FirstLineOf(version, ThreeDigits(n), reason);
    var ls := [first] + before + [line] + after;
    LengthRead(line, name, k, |body|, tail, NO_META);
    FramedBy(first, before, line, after);
    StatusNumber(version, n, reason);
    if |Lines(ls) + CRLF + body| < M64 {
      LengthRoundTrip(ls, body, rest);
    }
  }

  /** Without a length and without chunks there is no body. */
  lemma ServedNothing(version: seq<byte>, n: nat, reason: seq<byte>, lines: seq<seq<byte>>, rest: seq<byte>)
    requires SPACE !in version && n < 1000 && Other(FirstLineOf(version, ThreeDigits(n), reason)) && AllOther(lines)
    ensures var ls := [FirstLineOf(version, ThreeDigits(n), reason)] + lines;
      |Lines(ls) + CRLF| < M64 ==> ParseResponse(Lines(ls) + CRLF + rest) == Complete(n, [], |Lines(ls) + CRLF|)
  {
    hide Lines, ParseResponse, Other, LinesMeta, FirstLineOf, StatusLine, LineStatus, Clean;
    var first := FirstLineOf(version, ThreeDigits(n), reason);
    var ls := [first] + lines;
    assert AllOther(ls);
    OthersMeta([], ls);
    assert [] + ls == ls && LinesMeta([]) == NO_META by { NoLinesNoMeta(); }
    StatusNumber(version, n, reason);
    assert Lines(ls) + CRLF + [] == Lines(ls) + CRLF && [] + rest == rest;
    if |Lines(ls) + CRLF + []| < M64 {
      LengthRoundTrip(ls, [], rest);
    }
  }

  lemma NoLinesNoMeta()
    ensures LinesMeta([]) == NO_META
  {
  }

  /** A chunked response is read as what the server meant. */
  lemma ServedChunked(version: seq<byte>, n: nat, reason: seq<byte>, before: seq<seq<byte>>, line: seq<byte>,
                      name: seq<byte>, a: seq<byte>, b: seq<byte>, after: seq<seq<byte>>,
                      cs: seq<Sized>, last: seq<byte>, trailers: seq<seq<byte>>, rest: seq<byte>)
    requires SPACE !in version && n < 1000 && Other(FirstLineOf(version, ThreeDigits(n), reason))
    requires AllOther(before) && AllOther(after) && SaysChunked(line, name, a, b)
    requires AllSized(cs) && IsSizeLine(last, 0) && AllClean(trailers)
    ensures var ls := [FirstLineOf(version, ThreeDigits(n), reason)] + before + [line] + after;
      var wire := Wire(cs, last, trailers);
      |Lines(ls) + CRLF + wire + rest| < M64 ==>
        ParseResponse(Lines(ls) + CRLF + (wire + rest)) == Complete(n, Joined(cs), |Lines(ls) + CRLF + wire|)
  {
    hide Lines, ParseResponse, LineMeta, Other, LinesMeta, SaysChunked, FirstLineOf, StatusLine, LineStatus, Clean,
      Wire, IsSizeLine;
    var first := FirstLineOf(version, ThreeDigits(n), reason);
    var ls := [first] + before + [line] + after;
    ChunkedRead(line, name, a, b, NO_META);
    FramedBy(first, before, line, after);
    StatusNumber(version, n, reason);
    if |Lines(ls) + CRLF + Wire(cs, last, trailers) + rest| < M64 {
      ChunkedRoundTrip(ls, cs, last, trailers, rest);
    }
  }

  // ----- Chunk sizes -----

  const LOWER_HEX: seq<byte> := [48, 49, 50, 51, 52, 53, 54, 55, 56, 57, 97, 98, 99, 100, 101, 102]
  const UPPER_HEX: seq<byte> := [48, 49, 50, 51, 52, 53, 54, 55, 56, 57, 65, 66, 67, 68, 69, 70]

  /** Exactly the sixteen digits, in either case, are hex digits; `HexValues` gives their values. */
  lemma HexTable(b: byte)
    ensures HexDigit(b).Some? <==> b in LOWER_HEX || b in UPPER_HEX
  {
    if 48 <= b <= 57 {
      assert LOWER_HEX[b - 48] == b;
    } else if 97 <= b <= 102 {
      assert LOWER_HEX[b - 87] == b;
    } else if 65 <= b <= 70 {
      assert UPPER_HEX[b - 55] == b;
    }
  }

  lemma HexValues(d: nat)
    requires d < 16
    ensures HexDigit(LOWER_HEX[d]) == Some(d) && HexDigit(UPPER_HEX[d]) == Some(d)
  {
  }

  /** No size: nothing, or digits followed by something that is neither a digit nor the start of an extension. */
  predicate NoSizeLine(line: seq<byte>, digits: seq<byte>)
  {
    line == [] || (digits < line && AllHex(digits) && HexDigit(line[|digits|]).None? && line[|digits|] != SEMICOLON)
  }

  lemma {:induction false} NoSizeRead(line: seq<byte>, digits: seq<byte>, acc: nat)
    requires line != [] && NoSizeLine(line, digits) && acc < M64
    ensures ParseHexFrom(line, acc) == NO_SIZE
    decreases |line|
  {
    if digits != [] {
      assert line[0] == digits[0] && digits[1..] < line[1..];
      assert line[1..][|digits| - 1] == line[|digits|];
      NoSizeRead(line[1..], digits[1..], (acc * 16 + HexDigit(line[0]).value) % M64);
    }
  }

  /** A chunked response whose first size line is no size ends there: no body, and the whole buffer is consumed. */
  lemma ServedGarbage(ls: seq<seq<byte>>, n: nat, line: seq<byte>, digits: seq<byte>, rest: seq<byte>)
    requires ls != [] && AllClean(ls) && StatusLine(ls[0]) && LineStatus(ls[0]) == n && LinesMeta(ls).chunked
    requires NoSizeLine(line, digits) && 13 !in line
    ensures var s := Lines(ls) + CRLF + (line + CRLF + rest);
      ParseResponse(s) == Complete(if n == 0 then 502 else n, [], |s|)
  {
    hide Lines, LinesMeta, Find, MetaOf, PieceAt, LineStatus, StatusLine, NoSizeLine;
    ResponseOfLines(ls, line + CRLF + rest);
    BadPiece(Lines(ls) + CRLF, line, digits, rest);
  }

  lemma BadPiece(pre: seq<byte>, line: seq<byte>, digits: seq<byte>, rest: seq<byte>)
    requires NoSizeLine(line, digits) && 13 !in line
    ensures PieceAt(pre + (line + CRLF + rest), |pre|) == Bad
  {
    hide Find, ParseHexFrom, NoSizeLine;
    LineFound(pre, line, rest);
    assert pre + line + CRLF + rest == pre + (line + CRLF + rest);
    if line != [] {
      NoSizeRead(line, digits, 0);
    }
  }
}
