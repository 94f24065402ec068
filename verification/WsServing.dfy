/**
 What a server answers to the upgrade request, spelled out in bytes, and what the client makes of it (section 4.2.2 of
 RFC 6455).
 */
module WsServing {
  import opened Bits
  import opened HttpText
  import opened HttpLines
  import opened HttpServing
  import opened Wrappers
  import opened WsUpgrade
  import HttpLaws

  /** "http/1." */
  const HTTP_BYTES: seq<byte> := [104, 116, 116, 112, 47, 49, 46]

  /** "sec-websocket-accept:" */
  const ACCEPT_BYTES: seq<byte> :=
    [115, 101, 99, 45, 119, 101, 98, 115, 111, 99, 107, 101, 116, 45, 97, 99, 99, 101, 112, 116, 58]

  /** "101" */
  const SWITCHING_BYTES: seq<byte> := [49, 48, 49]

  lemma SameLiterals()
    ensures ACCEPT_NAME == ACCEPT_BYTES && SWITCHING == SWITCHING_BYTES
    ensures |HTTP_1| == |HTTP_BYTES| && forall i :: 0 <= i < |HTTP_1| ==> Lower(HTTP_1[i]) == HTTP_BYTES[i]
  {
    var accept, switching, http := "sec-websocket-accept:", "101", "HTTP/1.";
    forall i | 0 <= i < |accept| ensures ACCEPT_NAME[i] == ACCEPT_BYTES[i] {
      assert ACCEPT_NAME[i] == accept[i] as int % 256;
    }
    forall i | 0 <= i < |switching| ensures SWITCHING[i] == SWITCHING_BYTES[i] {
      assert SWITCHING[i] == switching[i] as int % 256;
    }
    forall i | 0 <= i < |http| ensures Lower(HTTP_1[i]) == HTTP_BYTES[i] {
      assert HTTP_1[i] == http[i] as int % 256;
    }
  }

  /** The version is compared without regard to case, too. */
  lemma HttpRead(s: seq<byte>)
    ensures IStartsWith(s, HTTP_1) <==> Names(s, HTTP_BYTES)
  {
    SameLiterals();
    FoldsLetters(s, HTTP_BYTES);
    if |HTTP_BYTES| <= |s| {
      forall i | 0 <= i < |HTTP_1| ensures Lower(HTTP_1[i]) == Lower(HTTP_BYTES[i]) {
        assert Lower(HTTP_BYTES[i]) == HTTP_BYTES[i];
      }
    }
  }

  lemma AcceptRead(line: seq<byte>)
    ensures IStartsWith(line, ACCEPT_NAME) <==> Names(line, ACCEPT_BYTES)
  {
    SameLiterals();
    FoldsLetters(line, ACCEPT_BYTES);
  }

  /** A value that neither starts nor ends with a space. */
  predicate Trimmed(value: seq<byte>)
  {
    value != [] ==> value[0] != SPACE && value[|value| - 1] != SPACE
  }

  lemma {:induction false} SpacesTrimmedRight(s: seq<byte>, m: nat)
    requires s == [] || s[|s| - 1] != SPACE
    ensures TrimRight(s + Spaces(m)) == s
    decreases m
  {
    if m == 0 {
      assert s + Spaces(0) == s;
    } else {
      assert (s + Spaces(m))[..|s| + m - 1] == s + Spaces(m - 1);
      SpacesTrimmedRight(s, m - 1);
    }
  }

  lemma ValueTrimmed(k: nat, value: seq<byte>, m: nat)
    requires Trimmed(value) && (value == [] ==> m == 0)
    ensures Trim(Spaces(k) + value + Spaces(m)) == value
  {
    hide TrimLeft, TrimRight;
    assert Spaces(k) + value + Spaces(m) == Spaces(k) + (value + Spaces(m));
    SpacesTrimmed(k, value + Spaces(m));
    SpacesTrimmedRight(value, m);
  }

  /** An accept line: the name in any mix of cases, the value, and spaces around it. */
  predicate SaysAccept(line: seq<byte>, name: seq<byte>, k: nat, value: seq<byte>, m: nat)
  {
    && Names(name, ACCEPT_BYTES) && |name| == |ACCEPT_BYTES| && Trimmed(value) && (value == [] ==> m == 0)
    && line == name + Spaces(k) + value + Spaces(m) && 13 !in line
  }

  predicate NoAccept(ls: seq<seq<byte>>)
  {
    forall i :: 0 <= i < |ls| ==> !Names(ls[i], ACCEPT_BYTES)
  }

  lemma AcceptLine(line: seq<byte>, name: seq<byte>, k: nat, value: seq<byte>, m: nat)
    requires SaysAccept(line, name, k, value, m)
    ensures Clean(line) && IStartsWith(line, ACCEPT_NAME) && |ACCEPT_NAME| <= |line|
    ensures Trim(line[|ACCEPT_NAME|..]) == value
  {
    hide IStartsWith, Trim;
    SameLiterals();
    AcceptRead(line);
    assert line[|ACCEPT_BYTES|..] == Spaces(k) + value + Spaces(m);
    ValueTrimmed(k, value, m);
  }

  lemma FirstHasNoAccept(version: seq<byte>, code: seq<byte>, reason: seq<byte>)
    requires Names(version, HTTP_BYTES)
    ensures !Names(FirstLineOf(version, code, reason), ACCEPT_BYTES)
    ensures Names(FirstLineOf(version, code, reason), HTTP_BYTES)
  {
    var line := FirstLineOf(version, code, reason);
    assert line[0] == version[0] && SameLetter(version[0], HTTP_BYTES[0]);
    assert !SameLetter(line[0], ACCEPT_BYTES[0]);
    forall i | 0 <= i < |HTTP_BYTES| ensures SameLetter(line[i], HTTP_BYTES[i]) {
      assert line[i] == version[i];
    }
  }

  lemma StatusOfAnswer(version: seq<byte>, code: seq<byte>, reason: seq<byte>, more: seq<byte>)
    requires SPACE !in version && |code| == 3
    ensures Switching(FirstLineOf(version, code, reason) + more) <==> code == SWITCHING_BYTES
  {
    hide Find;
    SameLiterals();
    var line := FirstLineOf(version, code, reason);
    CodePosition(version, code, reason);
    FindStable(line, more, [SPACE], 0);
    var sp, s := |version|, line + more;
    assert s[sp + 1..sp + 4] == [line[sp + 1], line[sp + 2], line[sp + 3]] == code;
  }

  /** An answer with one accept line is accepted if and only if its status is 101 and the line carries the expected
      value; the header block is consumed and no more. */
  lemma AnswerJudged(version: seq<byte>, code: seq<byte>, reason: seq<byte>, before: seq<seq<byte>>, line: seq<byte>,
                     name: seq<byte>, k: nat, value: seq<byte>, m: nat, after: seq<seq<byte>>, expected: seq<byte>,
                     frames: seq<byte>)
    requires Names(version, HTTP_BYTES) && SPACE !in version && |code| == 3
    requires Clean(FirstLineOf(version, code, reason)) && AllClean(before) && AllClean(after) && NoAccept(before)
    requires SaysAccept(line, name, k, value, m)
    ensures var ls := [FirstLineOf(version, code, reason)] + before + [line] + after;
      Validate(Lines(ls) + CRLF + frames, expected)
        == Reply(true, code == SWITCHING_BYTES && value == expected, |Lines(ls)| + 2)
  {
    hide Lines, Validate, IStartsWith, Trim, Switching, Names, FirstLineOf, SaysAccept, Clean;
    var first := FirstLineOf(version, code, reason);
    var ls, i := [first] + before + [line] + after, 1 + |before|;
    AcceptLine(line, name, k, value, m);
    FirstHasNoAccept(version, code, reason);
    forall j | 0 <= j < i ensures !IStartsWith(ls[j], ACCEPT_NAME) {
      AcceptRead(ls[j]);
    }
    assert AllClean(ls) && ls[i] == line;
    ValidateLines(ls, expected, frames, i);
    StartsWithFirst(ls, frames, version, code, reason);
  }

  lemma StartsWithFirst(ls: seq<seq<byte>>, frames: seq<byte>, version: seq<byte>, code: seq<byte>, reason: seq<byte>)
    requires ls != [] && ls[0] == FirstLineOf(version, code, reason)
    requires Names(version, HTTP_BYTES) && SPACE !in version && |code| == 3
    ensures var s := Lines(ls) + CRLF + frames;
      IStartsWith(s, HTTP_1) && (Switching(s) <==> code == SWITCHING_BYTES)
  {
    hide Lines, IStartsWith, Switching, FirstLineOf;
    var more := HttpLaws.FirstLine(ls);
    var s := Lines(ls) + CRLF + frames;
    assert s == ls[0] + (more + CRLF + frames);
    StatusOfAnswer(version, code, reason, more + CRLF + frames);
    FirstHasNoAccept(version, code, reason);
    forall i | 0 <= i < |HTTP_BYTES| ensures SameLetter(s[i], HTTP_BYTES[i]) {
      assert s[i] == ls[0][i];
    }
    HttpRead(s);
  }

  /** Without an accept line an answer is refused. */
  lemma AnswerWithout(ls: seq<seq<byte>>, expected: seq<byte>, frames: seq<byte>)
    requires ls != [] && AllClean(ls) && NoAccept(ls)
    ensures Validate(Lines(ls) + CRLF + frames, expected) == Reply(true, false, |Lines(ls)| + 2)
  {
    hide Lines, Validate, IStartsWith, Trim, Switching, Names, Clean;
    forall j | 0 <= j < |ls| ensures !IStartsWith(ls[j], ACCEPT_NAME) {
      AcceptRead(ls[j]);
    }
    ValidateLines(ls, expected, frames, |ls|);
  }
}
