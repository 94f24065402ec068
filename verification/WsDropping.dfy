/**
 Reassembly by a session that loses the message under reassembly at one point and goes on, and exactly when
 that shows in what it delivers.
 */
module WsDropping {
  import opened Bits
  import opened Seqs
  import opened Wrappers
  import opened WsFrame
  import opened WsStreams

  /** `Assemble`, with whatever is unfinished thrown away after the first `drop` frames. */
  function AssembleDrop(fs: seq<Frame>, drop: Option<nat>): Assembly
  {
    var a := if fs == [] then EMPTY else Feed(AssembleDrop(fs[..|fs| - 1], drop), fs[|fs| - 1]);
    if drop == Some(|fs|) then a.(frag := None) else a
  }

  lemma AssembleDropSnoc(fs: seq<Frame>, f: Frame, drop: Option<nat>)
    requires drop.Some? ==> drop.value <= |fs|
    ensures AssembleDrop(fs + [f], drop) == Feed(AssembleDrop(fs, drop), f)
  {
    assert (fs + [f])[..|fs|] == fs;
  }

  lemma {:induction false} NotDroppedYet(fs: seq<Frame>, drop: Option<nat>)
    requires drop.Some? ==> |fs| < drop.value
    ensures AssembleDrop(fs, drop) == Assemble(fs)
    decreases |fs|
  {
    if fs != [] {
      NotDroppedYet(fs[..|fs| - 1], drop);
    }
  }

  /** Dropping now keeps what was delivered and forgets what is unfinished. */
  lemma DropNow(fs: seq<Frame>)
    ensures AssembleDrop(fs, Some(|fs|)) == Assemble(fs).(frag := None)
    ensures AssembleDrop(fs, None) == Assemble(fs)
  {
    NotDroppedYet(fs, None);
    if fs != [] {
      NotDroppedYet(fs[..|fs| - 1], Some(|fs|));
    }
  }

  // ----- Conforming streams -----

  predicate StartsMessage(f: Frame) { f.header.opcode.Text? || f.header.opcode.Binary? }

  /** A data frame that starts a message arrives inside another message. */
  predicate Interleaves(fs: seq<Frame>, i: nat)
    requires i < |fs|
  {
    StartsMessage(fs[i]) && Assemble(fs[..i]).frag.Some?
  }

  /** The fragments of a message are not interleaved with other data (section 5.4 of RFC 6455). */
  predicate Conforming(fs: seq<Frame>)
  {
    forall i :: 0 <= i < |fs| ==> !Interleaves(fs, i)
  }

  lemma ConformingSnoc(fs: seq<Frame>, f: Frame)
    ensures !Conforming(fs) ==> !Conforming(fs + [f])
    ensures StartsMessage(f) && Assemble(fs).frag.Some? ==> !Conforming(fs + [f])
  {
    hide Assemble;
    var more := fs + [f];
    assert more[..|fs|] == fs;
    forall i | 0 <= i < |fs| ensures Interleaves(fs, i) == Interleaves(more, i) {
      assert more[..i] == fs[..i];
    }
    assert Interleaves(more, |fs|) == (StartsMessage(f) && Assemble(fs).frag.Some?);
  }

  // ----- When the drop shows -----

  /** Starts a fragmented message, replacing any unfinished one. */
  predicate Restarts(f: Frame) { StartsMessage(f) && !f.header.fin }

  predicate Finishes(f: Frame) { f.header.opcode.Continuation? && f.header.fin }

  /** The frame at or after `j` that would have finished the dropped message. */
  function Missed(fs: seq<Frame>, j: nat): (m: Option<nat>)
    requires j <= |fs|
    ensures m.Some? ==> j <= m.value < |fs| && Finishes(fs[m.value])
    decreases |fs| - j
  {
    if j == |fs| || Restarts(fs[j]) then None
    else if Finishes(fs[j]) then Some(j)
    else Missed(fs, j + 1)
  }

  /** Until then the two assemblies differ only in what is unfinished. */
  ghost predicate Apart(fs: seq<Frame>, k: nat, n: nat)
    requires k <= n <= |fs|
  {
    var a, d := Assemble(fs[..n]), AssembleDrop(fs[..n], Some(k));
    a.out == d.out && a.frag.Some? && d.frag.None?
  }

  lemma TakeSnoc(fs: seq<Frame>, k: nat, n: nat)
    requires k <= n < |fs|
    ensures Assemble(fs[..n + 1]) == Feed(Assemble(fs[..n]), fs[n])
    ensures AssembleDrop(fs[..n + 1], Some(k)) == Feed(AssembleDrop(fs[..n], Some(k)), fs[n])
  {
    assert fs[..n + 1] == fs[..n] + [fs[n]];
    AssembleSnoc(fs[..n], fs[n]);
    AssembleDropSnoc(fs[..n], fs[n], Some(k));
  }

  lemma ApartAtFirst(fs: seq<Frame>, k: nat)
    requires k <= |fs| && Assemble(fs[..k]).frag.Some?
    ensures Apart(fs, k, k)
  {
    DropNow(fs[..k]);
    assert |fs[..k]| == k;
  }

  lemma ApartStep(fs: seq<Frame>, k: nat, n: nat)
    requires k <= n < |fs| && Apart(fs, k, n)
    ensures Restarts(fs[n]) ==> Assemble(fs[..n + 1]) == AssembleDrop(fs[..n + 1], Some(k))
    ensures !Restarts(fs[n]) && !Finishes(fs[n]) ==> Apart(fs, k, n + 1)
    ensures Finishes(fs[n]) ==>
      var a, d := Assemble(fs[..n + 1]), AssembleDrop(fs[..n + 1], Some(k));
      a.frag.None? && d.frag.None? && |a.out| == |d.out| + 1 && a.out[..|d.out|] == d.out
  {
    hide Assemble, AssembleDrop;
    TakeSnoc(fs, k, n);
  }

  lemma {:induction false} SameOnwards(fs: seq<Frame>, k: nat, n: nat)
    requires k <= n <= |fs| && Assemble(fs[..n]) == AssembleDrop(fs[..n], Some(k))
    ensures Assemble(fs) == AssembleDrop(fs, Some(k))
    decreases |fs| - n
  {
    hide Assemble, AssembleDrop;
    if n == |fs| {
      assert fs[..n] == fs;
    } else {
      TakeSnoc(fs, k, n);
      SameOnwards(fs, k, n + 1);
    }
  }

  /** With nothing unfinished, the rest is assembled as if from the start. */
  lemma {:induction false} FreshOnwards(fs: seq<Frame>, k: nat, n: nat, m: nat)
    requires k <= n <= m <= |fs| && Assemble(fs[..n]).frag.None? && AssembleDrop(fs[..n], Some(k)).frag.None?
    ensures var t := Assemble(fs[n..m]);
      && Assemble(fs[..m]) == Assembly(Assemble(fs[..n]).out + t.out, t.frag)
      && AssembleDrop(fs[..m], Some(k)) == Assembly(AssembleDrop(fs[..n], Some(k)).out + t.out, t.frag)
    decreases m
  {
    hide Assemble, AssembleDrop;
    if m == n {
      assert fs[n..m] == [];
      NothingAssembled();
      assert Assemble(fs[..n]).out + [] == Assemble(fs[..n]).out;
      assert AssembleDrop(fs[..n], Some(k)).out + [] == AssembleDrop(fs[..n], Some(k)).out;
    } else {
      FreshOnwards(fs, k, n, m - 1);
      TakeSnoc(fs, k, m - 1);
      assert fs[n..m] == fs[n..m - 1] + [fs[m - 1]];
      AssembleSnoc(fs[n..m - 1], fs[m - 1]);
      FeedShift(Assemble(fs[..n]).out, Assemble(fs[n..m - 1]), fs[m - 1]);
      FeedShift(AssembleDrop(fs[..n], Some(k)).out, Assemble(fs[n..m - 1]), fs[m - 1]);
    }
  }

  lemma NothingAssembled()
    ensures Assemble([]) == EMPTY
  {
  }

  /** What was delivered before does not matter to the next frame. */
  lemma FeedShift(x: seq<Message>, a: Assembly, f: Frame)
    ensures Feed(Assembly(x + a.out, a.frag), f) == Assembly(x + Feed(a, f).out, Feed(a, f).frag)
  {
    var more := Feed(a, f);
    if |more.out| > |a.out| {
      Regroup(x, a.out, more.out[|a.out|..]);
    }
  }

  /** How the two deliveries compare: equal, or one message is missing and what follows is the same. */
  lemma DropEffect(fs: seq<Frame>, k: nat)
    requires k <= |fs|
    ensures var all, got, j := Assemble(fs).out, AssembleDrop(fs, Some(k)).out, Missed(fs, k);
      if Assemble(fs[..k]).frag.None? || j.None? then got == all
      else
        var x, t := Assemble(fs[..j.value]).out, Assemble(fs[j.value + 1..]).out;
        |all| > |x| && all == x + [all[|x|]] + t && got == x + t
  {
    if Assemble(fs[..k]).frag.None? {
      DropNow(fs[..k]);
      assert |fs[..k]| == k;
      SameOnwards(fs, k, k);
    } else {
      ApartAtFirst(fs, k);
      DropEffectFrom(fs, k, k);
    }
  }

  lemma {:induction false} DropEffectFrom(fs: seq<Frame>, k: nat, n: nat)
    requires k <= n <= |fs| && Apart(fs, k, n)
    ensures var all, got, j := Assemble(fs).out, AssembleDrop(fs, Some(k)).out, Missed(fs, n);
      if j.None? then got == all
      else
        var x, t := Assemble(fs[..j.value]).out, Assemble(fs[j.value + 1..]).out;
        |all| > |x| && all == x + [all[|x|]] + t && got == x + t
    decreases |fs| - n
  {
    hide Assemble, AssembleDrop;
    if n == |fs| {
      assert fs[..n] == fs;
    } else {
      ApartStep(fs, k, n);
      if Restarts(fs[n]) {
        SameOnwards(fs, k, n + 1);
      } else if Finishes(fs[n]) {
        FreshOnwards(fs, k, n + 1, |fs|);
        assert fs[n + 1..|fs|] == fs[n + 1..] && fs[..|fs|] == fs;
        TakeSnoc(fs, k, n);
        Finished(Assemble(fs[..n]), fs[n]);
      } else {
        DropEffectFrom(fs, k, n + 1);
      }
    }
  }

  lemma Finished(a: Assembly, f: Frame)
    requires a.frag.Some? && Finishes(f)
    ensures var b := Feed(a, f); |b.out| == |a.out| + 1 && b.out == a.out + [b.out[|a.out|]]
    ensures Feed(a.(frag := None), f).out == a.out
  {
  }

  /** Leaving one message out gives a prefix exactly when all that follow are the same message. */
  lemma GapIsPrefix(x: seq<Message>, m: Message, t: seq<Message>)
    ensures x + t <= x + [m] + t <==> forall i :: 0 <= i < |t| ==> t[i] == m
  {
    var got, all := x + t, x + [m] + t;
    if got <= all {
      SameAll(x, m, t, |t|);
    } else {
      if forall i :: 0 <= i < |t| ==> t[i] == m {
        forall i | 0 <= i < |got| ensures got[i] == all[i] {
          if i > |x| {
            assert all[i] == t[i - |x| - 1] == m;
          }
        }
      }
    }
  }

  lemma {:induction false} SameAll(x: seq<Message>, m: Message, t: seq<Message>, n: nat)
    requires x + t <= x + [m] + t && n <= |t|
    ensures forall i :: 0 <= i < n ==> t[i] == m
    decreases n
  {
    if n > 0 {
      SameAll(x, m, t, n - 1);
      var i := |x| + n - 1;
      assert (x + t)[i] == (x + [m] + t)[i];
      assert (x + t)[i] == t[n - 1];
    }
  }

  /** Nothing was unfinished at the drop, or the frame that would have finished it has not been processed, or
      everything delivered after that frame equals the missing message. */
  ghost predicate Harmless(fs: seq<Frame>, k: nat)
    requires k <= |fs|
  {
    var all, j := Assemble(fs).out, Missed(fs, k);
    || Assemble(fs[..k]).frag.None? || j.None?
    || (var x, t := |Assemble(fs[..j.value]).out|, Assemble(fs[j.value + 1..]).out;
        x < |all| && forall i :: 0 <= i < |t| ==> t[i] == all[x])
  }

  /** The messages a session delivers that dropped something after `k` frames are a prefix of the right ones if and
      only if the drop is harmless, and never more than those. */
  lemma PrefixIff(fs: seq<Frame>, k: nat)
    requires k <= |fs|
    ensures AssembleDrop(fs, Some(k)).out <= Assemble(fs).out <==> Harmless(fs, k)
    ensures |AssembleDrop(fs, Some(k)).out| <= |Assemble(fs).out|
  {
    hide Assemble, AssembleDrop;
    DropEffect(fs, k);
    var all, j := Assemble(fs).out, Missed(fs, k);
    if Assemble(fs[..k]).frag.Some? && j.Some? {
      var x, t := Assemble(fs[..j.value]).out, Assemble(fs[j.value + 1..]).out;
      GapIsPrefix(x, all[|x|], t);
    }
  }
}
