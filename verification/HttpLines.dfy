/**
 Messages made of CRLF-terminated lines, and how the header scan reads them back.
 */
module HttpLines {
  import opened Bits
  import opened HttpText
  import opened HttpResponse
  import opened Wrappers

  /** Lines, each ended by CRLF. */
  function Lines(ls: seq<seq<byte>>): (s: seq<byte>)
  {
    if ls == [] then [] else Lines(ls[..|ls| - 1]) + ls[|ls| - 1] + CRLF
  }

  /** A header line: not empty, and without a carriage return. */
  predicate Clean(line: seq<byte>)
  {
    line != [] && 13 !in line
  }

  predicate AllClean(ls: seq<seq<byte>>)
  {
    forall i :: 0 <= i < |ls| ==> Clean(ls[i])
  }

  lemma LinesSnoc(ls: seq<seq<byte>>, line: seq<byte>)
    ensures Lines(ls + [line]) == Lines(ls) + line + CRLF
  {
    assert (ls + [line])[..|ls|] == ls;
  }

  lemma {:induction false} LinesJoin(a: seq<seq<byte>>, b: seq<seq<byte>>)
    ensures Lines(a + b) == Lines(a) + Lines(b)
    decreases |b|
  {
    if b == [] {
      assert a + b == a && Lines(a) + Lines(b) == Lines(a);
    } else {
      var init, last := b[..|b| - 1], b[|b| - 1];
      assert a + b == (a + init) + [last];
      LinesSnoc(a + init, last);
      LinesJoin(a, init);
      assert Lines(a) + (Lines(init) + last + CRLF) == (Lines(a) + Lines(init)) + last + CRLF;
    }
  }

  /** Inside clean lines a carriage return is followed by a line feed and, unless it ends the last
      line, by the first byte of the next line. */
  lemma {:induction false} NoBlankLine(ls: seq<seq<byte>>, i: nat)
    requires AllClean(ls) && i + 2 < |Lines(ls)|
    ensures Lines(ls)[i] == 13 ==> Lines(ls)[i + 2] != 13
    decreases |ls|
  {
    var init, last := ls[..|ls| - 1], ls[|ls| - 1];
    var s, n := Lines(init), |Lines(init)|;
    assert Lines(ls) == s + last + CRLF;
    if i + 2 < n {
      NoBlankLine(init, i);
    } else if i + 2 == n {
      assert Lines(ls)[i + 2] == last[0];
    } else if i < n {
      LinesEnd(init);
    } else {
      assert Lines(ls)[i] == last[i - n];
    }
  }

  lemma LinesEnd(ls: seq<seq<byte>>)
    requires ls != []
    ensures |Lines(ls)| >= 2 && Lines(ls)[|Lines(ls)| - 2..] == CRLF
  {
  }

  /** The blank line is found exactly where the lines end. */
  lemma BlankLineFound(ls: seq<seq<byte>>, rest: seq<byte>)
    requires ls != [] && AllClean(ls)
    ensures |Lines(ls)| >= 2
    ensures Find(Lines(ls) + CRLF + rest, CRLFCRLF, 0) == Some(|Lines(ls)| - 2)
  {
    var s, end := Lines(ls) + CRLF + rest, |Lines(ls)| - 2;
    LinesEnd(ls);
    hide Lines, Find;
    assert s[end] == Lines(ls)[end..][0] && s[end + 1] == Lines(ls)[end..][1];
    assert s[end..end + 4] == CRLFCRLF;
    forall i | 0 <= i < end ensures !MatchAt(s, CRLFCRLF, i) {
      NoBlankLine(ls, i);
      assert s[i] == Lines(ls)[i] && s[i + 2] == Lines(ls)[i + 2];
      assert s[i..i + 4][0] == s[i] && s[i..i + 4][2] == s[i + 2];
    }
    FindUnique(s, CRLFCRLF, 0, end);
  }

  /** Reading the headers of a message line by line. */
  function LinesMeta(ls: seq<seq<byte>>): Meta
  {
    if ls == [] then NO_META else LineMeta(ls[|ls| - 1], LinesMeta(ls[..|ls| - 1]))
  }

  lemma LineFound(pre: seq<byte>, line: seq<byte>, rest: seq<byte>)
    requires 13 !in line
    ensures Find(pre + line + CRLF + rest, CRLF, |pre|) == Some(|pre| + |line|)
    ensures (pre + line + CRLF + rest)[|pre|..|pre| + |line|] == line
  {
    var s, e := pre + line + CRLF + rest, |pre| + |line|;
    assert s[e..e + 2] == CRLF;
    forall i | |pre| <= i < e ensures !MatchAt(s, CRLF, i) {
      assert s[i] == line[i - |pre|];
      NoMatch(s, CRLF, i);
    }
    FindUnique(s, CRLF, |pre|, e);
  }

  /** The scan reads clean lines one by one. */
  lemma {:induction false} ScanLines(ls: seq<seq<byte>>, rest: seq<byte>)
    requires AllClean(ls)
    ensures ScanHeaders(Lines(ls) + rest, 0, NO_META) == ScanHeaders(Lines(ls) + rest, |Lines(ls)|, LinesMeta(ls))
    decreases |ls|
  {
    hide Find, LineMeta;
    if ls != [] {
      var init, last := ls[..|ls| - 1], ls[|ls| - 1];
      assert Lines(ls) + rest == Lines(init) + (last + CRLF + rest);
      assert Lines(ls) + rest == Lines(init) + last + CRLF + rest;
      ScanLines(init, last + CRLF + rest);
      LineFound(Lines(init), last, rest);
    }
  }

  lemma ScanEnds(h: seq<byte>, m: Meta)
    ensures ScanHeaders(h, |h|, m) == m
  {
  }

  /** A message of clean lines has the headers its lines say. */
  lemma HeadersRead(ls: seq<seq<byte>>, rest: seq<byte>)
    requires ls != [] && AllClean(ls)
    ensures |Lines(ls)| >= 2
    ensures Find(Lines(ls) + CRLF + rest, CRLFCRLF, 0) == Some(|Lines(ls)| - 2)
    ensures MetaOf(Lines(ls) + CRLF + rest, |Lines(ls)| - 2) == LinesMeta(ls)
  {
    hide Find, Lines, LinesMeta, ScanHeaders;
    BlankLineFound(ls, rest);
    ScanLines(ls, []);
    ScanEnds(Lines(ls), LinesMeta(ls));
    assert (Lines(ls) + CRLF + rest)[..|Lines(ls)|] == Lines(ls) == Lines(ls) + [];
  }

  lemma {:induction false} LinesGrow(ls: seq<seq<byte>>, i: nat)
    requires i < |ls|
    ensures Lines(ls[..i + 1]) == Lines(ls[..i]) + ls[i] + CRLF
    ensures |Lines(ls[..i + 1])| <= |Lines(ls)|
    decreases |ls| - i
  {
    assert ls[..i + 1][..i] == ls[..i];
    if i + 1 == |ls| {
      assert ls[..i + 1] == ls;
    } else {
      LinesGrow(ls, i + 1);
    }
  }

  lemma LinesNone()
    ensures Lines([]) == []
  {
  }

  lemma TwoLines(a: seq<byte>, b: seq<byte>)
    ensures Lines([a, b]) == a + CRLF + b + CRLF
  {
    LinesNone();
    LinesSnoc([], a);
    assert [] + [a] == [a];
    LinesSnoc([a], b);
    assert [a] + [b] == [a, b];
  }

  /** Line `i` of a message is where the search for the next CRLF puts it. */
  lemma LineAt(ls: seq<seq<byte>>, i: nat, rest: seq<byte>)
    requires i < |ls| && 13 !in ls[i]
    ensures var s, n := Lines(ls) + rest, |Lines(ls[..i])|;
      && n + |ls[i]| + 2 == |Lines(ls[..i + 1])| <= |s|
      && Find(s, CRLF, n) == Some(n + |ls[i]|)
      && s[n..n + |ls[i]|] == ls[i]
  {
    hide Lines, Find;
    var pre, line, more := Lines(ls[..i]), ls[i], Lines(ls[i + 1..]);
    LinesGrow(ls, i);
    LinesJoin(ls[..i + 1], ls[i + 1..]);
    assert ls[..i + 1] + ls[i + 1..] == ls;
    assert (pre + line + CRLF + more) + rest == pre + line + CRLF + (more + rest);
    LineFound(pre, line, more + rest);
  }
}
