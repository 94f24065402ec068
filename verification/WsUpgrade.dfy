/**
 `validate_ws_upgrade`: judging the server's answer to the upgrade request.
 */
module WsUpgrade {
  import opened Bits
  import opened HttpText
  import opened HttpResponse
  import opened HttpLines
  import opened Wrappers

  const ACCEPT_NAME: seq<byte> := Ascii("sec-websocket-accept:")
  const HTTP_1: seq<byte> := Ascii("HTTP/1.")
  const SWITCHING: seq<byte> := Ascii("101")

  /** The trimmed value of the first accept line of `h` at or after `pos`. */
  function AcceptValue(h: seq<byte>, pos: nat): (v: Option<seq<byte>>)
    decreases |h| - pos
  {
    if pos >= |h| then None
    else
      var eol := Find(h, CRLF, pos);
      if eol.None? then None
      else
        var line := h[pos..eol.value];
        if IStartsWith(line, ACCEPT_NAME) then Some(Trim(line[|ACCEPT_NAME|..]))
        else AcceptValue(h, eol.value + 2)
  }

  /** The first space of the whole buffer is followed by the status 101. */
  predicate Switching(s: seq<byte>)
  {
    var sp := Find(s, [SPACE], 0);
    sp.Some? && sp.value + 4 <= |s| && s[sp.value + 1..sp.value + 4] == SWITCHING
  }

  datatype Reply = Reply(complete: bool, accepted: bool, headersLen: nat)

  predicate Accepts(s: seq<byte>, headersLen: nat, expected: seq<byte>)
    requires headersLen <= |s|
  {
    && IStartsWith(s, HTTP_1)
    && Switching(s)
    && AcceptValue(s[..headersLen], 0) == Some(expected)
  }

  function Validate(s: seq<byte>, expected: seq<byte>): (r: Reply)
    ensures r.complete <==> Find(s, CRLFCRLF, 0).Some?
    ensures r.complete ==> 4 <= r.headersLen <= |s|
  {
    var end := Find(s, CRLFCRLF, 0);
    if end.None? then Reply(false, false, 0)
    else Reply(true, Accepts(s, end.value + 4, expected), end.value + 4)
  }

  /** The two trimming loops. */
  method StripSpaces(s: seq<byte>) returns (t: seq<byte>)
    ensures t == Trim(s)
  {
    t := s;
    while t != [] && t[0] == SPACE
      invariant TrimLeft(t) == TrimLeft(s)
      decreases |t|
    {
      t := t[1..];
    }
    assert t == TrimLeft(s);
    while t != [] && t[|t| - 1] == SPACE
      invariant TrimRight(t) == Trim(s)
      decreases |t|
    {
      t := t[..|t| - 1];
    }
  }

  /** The header loop. */
  method FindAccept(h: seq<byte>) returns (v: Option<seq<byte>>)
    ensures v == AcceptValue(h, 0)
  {
    hide Find, Trim, IStartsWith;
    var pos := 0;
    while pos < |h|
      invariant AcceptValue(h, 0) == AcceptValue(h, pos)
      decreases |h| - pos
    {
      var eol := Search(h, CRLF, pos);
      if eol.None? {
        return None;
      }
      var line := h[pos..eol.value];
      var found := CheckPrefix(line, ACCEPT_NAME);
      if found {
        PrefixFits(line, ACCEPT_NAME);
        var value := StripSpaces(line[|ACCEPT_NAME|..]);
        return Some(value);
      }
      pos := eol.value + 2;
    }
    return None;
  }

  lemma PrefixFits(hay: seq<byte>, needle: seq<byte>)
    requires IStartsWith(hay, needle)
    ensures |needle| <= |hay|
  {
  }

  /** `validate_ws_upgrade`. */
  method CheckUpgrade(s: seq<byte>, expected: seq<byte>) returns (r: Reply)
    ensures r == Validate(s, expected)
  {
    hide Find, AcceptValue, IStartsWith;
    var end := Search(s, CRLFCRLF, 0);
    if end.None? {
      return Reply(false, false, 0);
    }
    r := Reply(true, false, end.value + 4);
    var http := CheckPrefix(s, HTTP_1);
    if !http {
      return;
    }
    var sp := Search(s, [SPACE], 0);
    if sp.None? || sp.value + 4 > |s| {
      return;
    }
    if s[sp.value + 1..sp.value + 4] != SWITCHING {
      return;
    }
    var value := FindAccept(s[..r.headersLen]);
    r := r.(accepted := value == Some(expected));
  }

  // ----- What acceptance means -----

  lemma {:induction false} AcceptLines(ls: seq<seq<byte>>, i: nat, rest: seq<byte>)
    requires AllClean(ls) && i <= |ls|
    requires forall k :: 0 <= k < i ==> !IStartsWith(ls[k], ACCEPT_NAME)
    ensures AcceptValue(Lines(ls) + rest, 0) == AcceptValue(Lines(ls) + rest, |Lines(ls[..i])|)
    decreases i
  {
    hide Find, IStartsWith, Trim, Lines;
    if i > 0 {
      AcceptLines(ls, i - 1, rest);
      LineAt(ls, i - 1, rest);
    } else {
      assert ls[..0] == [];
      LinesNone();
    }
  }

  /** The value a conforming answer carries is the one on its first accept line. */
  lemma AcceptLineRead(ls: seq<seq<byte>>, i: nat, rest: seq<byte>)
    requires AllClean(ls) && i < |ls|
    requires forall k :: 0 <= k < i ==> !IStartsWith(ls[k], ACCEPT_NAME)
    requires IStartsWith(ls[i], ACCEPT_NAME)
    ensures AcceptValue(Lines(ls) + rest, 0) == Some(Trim(ls[i][|ACCEPT_NAME|..]))
  {
    hide Find, IStartsWith, Trim, Lines;
    AcceptLines(ls, i, rest);
    LineAt(ls, i, rest);
    PrefixFits(ls[i], ACCEPT_NAME);
  }

  lemma AcceptLineMissing(ls: seq<seq<byte>>, rest: seq<byte>)
    requires AllClean(ls)
    requires forall k :: 0 <= k < |ls| ==> !IStartsWith(ls[k], ACCEPT_NAME)
    requires rest == CRLF
    ensures AcceptValue(Lines(ls) + rest, 0) == None
  {
    AcceptLines(ls, |ls|, rest);
    assert ls[..|ls|] == ls;
    var s, n := Lines(ls) + rest, |Lines(ls)|;
    assert s == Lines(ls) + [] + CRLF + [];
    LineFound(Lines(ls), [], []);
    assert s[n..n] == [];
  }

  /** An answer made of header lines is accepted if and only if it starts like HTTP/1, the code after
      its first space is 101, and its first accept line carries the expected value; in every case
      exactly the header block is consumed and what follows it is left to the frame parser. */
  lemma ValidateLines(ls: seq<seq<byte>>, expected: seq<byte>, frames: seq<byte>, i: nat)
    requires ls != [] && AllClean(ls) && i <= |ls|
    requires forall k :: 0 <= k < i ==> !IStartsWith(ls[k], ACCEPT_NAME)
    requires i < |ls| ==> IStartsWith(ls[i], ACCEPT_NAME)
    ensures var s := Lines(ls) + CRLF + frames;
      Validate(s, expected) ==
        Reply(true,
          IStartsWith(s, HTTP_1) && Switching(s) && i < |ls| && Trim(ls[i][|ACCEPT_NAME|..]) == expected,
          |Lines(ls)| + 2)
  {
    hide Lines, Find, AcceptValue, IStartsWith, Trim, Switching;
    var s := Lines(ls) + CRLF + frames;
    BlankLineFound(ls, frames);
    assert s[..|Lines(ls)| + 2] == Lines(ls) + CRLF;
    if i < |ls| {
      AcceptLineRead(ls, i, CRLF);
    } else {
      AcceptLineMissing(ls, CRLF);
    }
  }

  // ----- Bytes that arrive after the header block -----

  /** The space that precedes the status code is searched for in the whole buffer.  As long as there is none, or
      fewer than three bytes behind it that may still become "101", what arrives next decides the status. */
  predicate StatusUndecided(s: seq<byte>)
  {
    var sp := Find(s, [SPACE], 0);
    sp.None? || (sp.value + 4 > |s| && s[sp.value + 1..] <= SWITCHING)
  }

  /** Bytes that complete an undecided status to 101. */
  function Completion(s: seq<byte>): seq<byte>
    requires StatusUndecided(s)
  {
    var sp := Find(s, [SPACE], 0);
    if sp.None? then [SPACE] + SWITCHING else SWITCHING[|s| - sp.value - 1..]
  }

  lemma ThreeBytes()
    ensures |SWITCHING| == 3
  {
  }

  lemma CutLeft(s: seq<byte>, t: seq<byte>, a: nat, b: nat)
    requires a <= |s| <= b <= |s + t|
    ensures (s + t)[a..b][..|s| - a] == s[a..]
  {
    assert (s + t)[a..b][..|s| - a] == (s + t)[a..|s|];
  }

  lemma DecidedStays(s: seq<byte>, t: seq<byte>)
    requires !StatusUndecided(s)
    ensures Switching(s + t) == Switching(s)
  {
    FindStable(s, t, [SPACE], 0);
    var sp := Find(s, [SPACE], 0).value;
    ThreeBytes();
    hide Find;
    if sp + 4 <= |s| {
      assert (s + t)[sp + 1..sp + 4] == s[sp + 1..sp + 4];
    } else if sp + 4 <= |s + t| {
      var n := |s| - sp - 1;
      CutLeft(s, t, sp + 1, sp + 4);
      assert SWITCHING[..n] <= SWITCHING;
    }
  }

  lemma UndecidedCompletes(s: seq<byte>)
    requires StatusUndecided(s)
    ensures !Switching(s) && Switching(s + Completion(s))
  {
    ThreeBytes();
    var sp, t := Find(s, [SPACE], 0), s + Completion(s);
    if sp.None? {
      assert t[|s|..|s| + 1] == [SPACE];
      forall i | 0 <= i < |s| ensures !MatchAt(t, [SPACE], i) {
        MatchPrefix(s, Completion(s), [SPACE], i);
      }
      FindUnique(t, [SPACE], 0, |s|);
      assert t[|s| + 1..|s| + 4] == SWITCHING;
    } else {
      FindStable(s, Completion(s), [SPACE], 0);
      var k := sp.value;
      assert t[k + 1..k + 4] == s[k + 1..] + Completion(s) == SWITCHING;
    }
  }

  lemma HeadersStable(s: seq<byte>, t: seq<byte>, expected: seq<byte>)
    requires Validate(s, expected).complete
    ensures Validate(s + t, expected).complete
    ensures Validate(s + t, expected).headersLen == Validate(s, expected).headersLen
    ensures var n := Validate(s, expected).headersLen; (s + t)[..n] == s[..n]
  {
    FindStable(s, t, CRLFCRLF, 0);
  }

  /** Everything but the status is decided by the header block. */
  predicate OnlyStatusMissing(s: seq<byte>, expected: seq<byte>)
  {
    var r := Validate(s, expected);
    r.complete && IStartsWith(s, HTTP_1) && AcceptValue(s[..r.headersLen], 0) == Some(expected)
  }

  lemma SevenBytes()
    ensures |HTTP_1| == 7
  {
  }

  lemma PrefixStable(s: seq<byte>, t: seq<byte>)
    requires Find(s, CRLFCRLF, 0).Some?
    ensures IStartsWith(s + t, HTTP_1) == IStartsWith(s, HTTP_1)
  {
    var end := Find(s, CRLFCRLF, 0).value;
    SevenBytes();
    if |s| >= 7 {
      IStartsWithPrefix(s, t, HTTP_1);
    } else if IStartsWith(s + t, HTTP_1) {
      assert s[end..end + 4][0] == 13;
      assert (s + t)[end] == s[end] == 13;
      assert Lower((s + t)[end]) == Lower(HTTP_1[end]);
      NoReturnInName(end);
    }
  }

  lemma NoReturnInName(i: nat)
    requires i < |HTTP_1|
    ensures Lower(HTTP_1[i]) != 13
  {
    assert HTTP_1[i] == "HTTP/1."[i] as int % 256;
  }

  /** The verdict of a complete answer never changes, unless nothing is missing but a status that is still open. */
  lemma VerdictStable(s: seq<byte>, t: seq<byte>, expected: seq<byte>)
    requires Validate(s, expected).complete
    requires !(OnlyStatusMissing(s, expected) && StatusUndecided(s))
    ensures Validate(s + t, expected) == Validate(s, expected)
  {
    hide AcceptValue, IStartsWith, Switching, StatusUndecided, Find;
    HeadersStable(s, t, expected);
    PrefixStable(s, t);
    if !StatusUndecided(s) {
      DecidedStays(s, t);
    }
  }

  /** Otherwise it does: refused now, accepted with one to four more bytes. */
  lemma VerdictVaries(s: seq<byte>, expected: seq<byte>)
    requires OnlyStatusMissing(s, expected) && StatusUndecided(s)
    ensures !Validate(s, expected).accepted
    ensures Validate(s + Completion(s), expected).accepted
  {
    hide AcceptValue, IStartsWith, Switching, StatusUndecided, Find, Completion;
    HeadersStable(s, Completion(s), expected);
    PrefixStable(s, Completion(s));
    UndecidedCompletes(s);
  }

  /** For every complete answer the verdict is final - whatever arrives next - if and only if the status is decided
      or the answer is refused for its prefix or its accept line anyway. */
  lemma VerdictFinalIff(s: seq<byte>, expected: seq<byte>)
    requires Validate(s, expected).complete
    ensures (forall t :: Validate(s + t, expected).accepted == Validate(s, expected).accepted)
      <==> !(OnlyStatusMissing(s, expected) && StatusUndecided(s))
  {
    hide Validate, OnlyStatusMissing, StatusUndecided, Completion;
    if OnlyStatusMissing(s, expected) && StatusUndecided(s) {
      VerdictVaries(s, expected);
    } else {
      forall t ensures Validate(s + t, expected).accepted == Validate(s, expected).accepted {
        VerdictStable(s, t, expected);
      }
    }
  }
}
