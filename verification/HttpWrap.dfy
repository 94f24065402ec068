/**
 The dry run over chunks with the 64-bit positions of the source: where a chunk's end wraps around, the
 cursor may move backwards, and the loop may never end.
 */
module HttpWrap {
  import opened Arith
  import opened Bits
  import opened Seqs
  import opened Wrappers
  import opened HttpText
  import opened HttpResponse
  import opened HttpLines
  import opened HttpLaws

  /** Where the dry run continues after the size line at `p`; nowhere if it stops there. */
  function DryNext(s: seq<byte>, p: nat): (q: Option<nat>)
    requires p <= |s|
    ensures q.Some? ==> q.value <= |s|
  {
    match PieceAt(s, p)
    case Chunk(data, size) => Some(data + size + 2)
    case Huge(next) => Some(next)
    case _ => None
  }

  /** The cursor after `n` iterations, unless the loop has ended before. */
  function DryAfter(s: seq<byte>, p: nat, n: nat): (q: Option<nat>)
    requires p <= |s|
    ensures q.Some? ==> q.value <= |s|
  {
    if n == 0 then Some(p)
    else
      var q := DryAfter(s, p, n - 1);
      if q.None? then None else DryNext(s, q.value)
  }

  ghost predicate Ends(s: seq<byte>, p: nat)
    requires p <= |s|
  {
    exists n: nat :: DryAfter(s, p, n).None?
  }

  lemma {:induction false} EndedStays(s: seq<byte>, p: nat, m: nat, n: nat)
    requires p <= |s| && m <= n && DryAfter(s, p, m).None?
    ensures DryAfter(s, p, n).None?
    decreases n
  {
    hide DryNext;
    if m < n {
      EndedStays(s, p, m, n - 1);
    }
  }

  /** A position that comes back comes back forever. */
  lemma {:induction false} Repeats(s: seq<byte>, p: nat, i: nat, j: nat, n: nat)
    requires p <= |s| && i < j && DryAfter(s, p, i) == DryAfter(s, p, j) && DryAfter(s, p, j).Some?
    ensures DryAfter(s, p, n).Some?
    decreases n
  {
    hide DryAfter;
    if n <= j {
      if DryAfter(s, p, n).None? {
        EndedStays(s, p, n, j);
      }
    } else {
      Periodic(s, p, i, j, n - j);
      Repeats(s, p, i, j, n - (j - i));
    }
  }

  lemma {:induction false} Periodic(s: seq<byte>, p: nat, i: nat, j: nat, k: nat)
    requires p <= |s| && DryAfter(s, p, i) == DryAfter(s, p, j)
    ensures DryAfter(s, p, i + k) == DryAfter(s, p, j + k)
    decreases k
  {
    hide DryNext;
    if k > 0 {
      Periodic(s, p, i, j, k - 1);
    }
  }

  /** The dry run ends if and only if it ends within as many iterations as the buffer has positions. */
  lemma EndsIff(s: seq<byte>, p: nat)
    requires p <= |s|
    ensures Ends(s, p) <==> DryAfter(s, p, |s| + 1).None?
  {
    var m := |s| + 1;
    if DryAfter(s, p, m).Some? {
      forall k: nat | k <= m ensures DryAfter(s, p, k).Some? {
        if DryAfter(s, p, k).None? {
          EndedStays(s, p, k, m);
        }
      }
      var seen := seq(m + 1, k requires 0 <= k <= m => DryAfter(s, p, k).value);
      var i, j := Collision(seen, m);
      forall n: nat ensures DryAfter(s, p, n).Some? {
        Repeats(s, p, i, j, n);
      }
    }
  }

  lemma Collision(seen: seq<nat>, count: nat) returns (i: nat, j: nat)
    requires |seen| > count && forall k :: 0 <= k < |seen| ==> seen[k] < count
    ensures i < j < |seen| && seen[i] == seen[j]
  {
    if Distinct(seen) {
      DistinctFits(seen, count);
    }
    i, j :| 0 <= i < j < |seen| && seen[i] == seen[j];
  }

  /** Without a wrap it ends, and it wraps exactly where the reference says so. */
  lemma {:induction false} EndsWithoutWrap(s: seq<byte>, p: nat) returns (n: nat)
    requires p <= |s| && !DecodeChunks(s, p).Wraps?
    ensures DryAfter(s, p, n).None?
    decreases |s| - p
  {
    hide PieceAt;
    var c := PieceAt(s, p);
    if c.Chunk? {
      var m := EndsWithoutWrap(s, c.data + c.size + 2);
      Shift(s, p, c.data + c.size + 2, m);
      n := m + 1;
    } else {
      n := 1;
      assert DryAfter(s, p, 0) == Some(p);
    }
  }

  lemma {:induction false} Shift(s: seq<byte>, p: nat, q: nat, n: nat)
    requires p <= |s| && DryNext(s, p) == Some(q)
    ensures DryAfter(s, p, n + 1) == DryAfter(s, q, n)
    decreases n
  {
    hide DryNext;
    if n > 0 {
      Shift(s, p, q, n - 1);
    } else {
      assert DryAfter(s, p, 0) == Some(p);
    }
  }

  /** A size line whose chunk ends, wrapped, at the line itself: the dry run stays there forever, whatever stands
      before and behind it. */
  lemma StaysForever(pre: seq<byte>, line: seq<byte>, rest: seq<byte>)
    requires |pre + line + CRLF + rest| < M64 - 4 && IsSizeLine(line, M64 - 4 - |line|)
    ensures !Ends(pre + line + CRLF + rest, |pre|)
    ensures DecodeChunks(pre + line + CRLF + rest, |pre|).Wraps?
  {
    hide Find, ParseHex;
    var s := pre + line + CRLF + rest;
    LineFound(pre, line, rest);
    assert PieceAt(s, |pre|) == Huge(|pre|) by { WrapsBack(|pre|, |line|); }
    assert DryAfter(s, |pre|, 0) == Some(|pre|) && DryAfter(s, |pre|, 1) == Some(|pre|);
    forall n: nat ensures DryAfter(s, |pre|, n).Some? {
      Repeats(s, |pre|, 0, 1, n);
    }
  }

  lemma WrapsBack(p: nat, k: nat)
    requires p < M64 && k + 4 <= M64
    ensures (p + k + 2 + (M64 - 4 - k) + 2) % M64 == p
  {
  }

  function Pow16(k: nat): nat { if k == 0 then 1 else 16 * Pow16(k - 1) }

  lemma {:induction false} HexLength(n: nat, k: nat)
    requires k > 0 && n < Pow16(k) && (k == 1 || n >= Pow16(k - 1))
    ensures |HexDigits(n)| == k
    decreases k
  {
    if k > 1 {
      assert Pow16(k - 1) == 16 * Pow16(k - 2) && Pow16(k - 2) >= 1;
      HexLength(n / 16, k - 1);
    }
  }

  lemma SixteenDigits()
    ensures Pow16(15) == 0x1000_0000_0000_0000 && Pow16(16) == M64
  {
    assert Pow16(4) == 0x1_0000;
    assert Pow16(8) == 0x1_0000 * Pow16(4);
    assert Pow16(12) == 0x1_0000 * Pow16(8);
    assert Pow16(15) == 0x1000 * Pow16(12);
  }

  /** There is such a line: the digits of 2^64 - 20, "ffffffffffffffec". */
  lemma LoopingLine()
    ensures |HexDigits(M64 - 20)| == 16 && IsSizeLine(HexDigits(M64 - 20), M64 - 4 - 16)
  {
    SixteenDigits();
    HexLength(M64 - 20, 16);
    SizeLineExists(M64 - 20, []);
    assert HexDigits(M64 - 20) + [] == HexDigits(M64 - 20);
  }
}
