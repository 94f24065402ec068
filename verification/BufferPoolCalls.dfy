/**
 Whole calls of `acquire` and `release`: what a call has done to the free list when it returns, in every
 interleaving with the other threads.
 */
module BufferPoolCalls {
  import opened BufferPool
  import opened Wrappers

  // ----- What a thread does to the free list -----

  datatype Change = Pushed(buf: nat) | Popped(buf: nat) | Garbled

  /** The change one step makes, seen from outside.  A push takes the buffer from the thread and a pop gives it the
      first free one; hand-overs leave the free list alone. */
  ghost function ChangeOf(p: Pool, p': Pool, t: Tid): seq<Change>
    requires t in p.holds
  {
    if p'.free == p.free then []
    else if p'.free != [] && p'.free[0] in p.holds[t]
      && p' == Pool([p'.free[0]] + p.free, p.holds[t := p.holds[t] - {p'.free[0]}]) then [Pushed(p'.free[0])]
    else if Pops(p, p', t) then [Popped(p.free[0])]
    else [Garbled]
  }

  /** What thread `t` did to the free list during a run, in order. */
  ghost function Changes(s: State, run: seq<Action>, t: Tid): seq<Change>
    requires Runs(s, run)
    decreases |run|
  {
    if run == [] then []
    else
      var s' := Apply(s, run[0]);
      (if run[0].tid == t then ChangeOf(View(s), View(s'), t) else []) + Changes(s', run[1..], t)
  }

  predicate LoadsHead(step: Step)
  {
    step.LoadForAcquire? || step.SwapForAcquire? || step.LoadForRelease? || step.SwapForRelease?
  }

  /** The free list as it was when thread `t` last looked at its head, or `last` if it did not. */
  function LastSeen(s: State, run: seq<Action>, t: Tid, last: Option<seq<nat>>): Option<seq<nat>>
    requires Runs(s, run)
    decreases |run|
  {
    if run == [] then last
    else
      var now := if run[0].tid == t && LoadsHead(run[0].step) then Some(s.stack) else last;
      LastSeen(Apply(s, run[0]), run[1..], t, now)
  }

  // ----- Calls -----

  predicate InCall(s: State, t: Tid)
  {
    t in s.threads && !s.threads[t].pc.Idle?
  }

  /** Thread `t` returns at the end of the run and not before. */
  ghost predicate Returns(s: State, run: seq<Action>, t: Tid)
    requires Runs(s, run)
    decreases |run|
  {
    if run == [] then !InCall(s, t) else InCall(s, t) && Returns(Apply(s, run[0]), run[1..], t)
  }

  /** The run starts with the first step of a call of thread `t` and ends when that call returns. */
  ghost predicate Call(s: State, run: seq<Action>, t: Tid)
    requires Runs(s, run)
  {
    && run != [] && run[0].tid == t && !InCall(s, t) && InCall(Apply(s, run[0]), t)
    && Returns(Apply(s, run[0]), run[1..], t)
  }

  lemma OthersKeepPc(s: State, a: Action, t: Tid)
    requires CanStep(s, a) && t in s.threads && a.tid != t
    ensures t in Apply(s, a).threads && Apply(s, a).threads[t].pc == s.threads[t].pc
  {
  }

  /** A step that wins no swap does nothing to the free list. */
  lemma NoChange(s: State, a: Action)
    requires CanStep(s, a)
    requires IsSwap(a.step) ==> !Wins(s, s.threads[a.tid].pc.seen, a.step.spurious)
    ensures ChangeOf(View(s), View(Apply(s, a)), a.tid) == []
  {
    hide SwapAcquire, SwapRelease;
    assert Apply(s, a).stack == s.stack by { SameStack(s, a); }
  }

  lemma SameStack(s: State, a: Action)
    requires CanStep(s, a)
    requires IsSwap(a.step) ==> !Wins(s, s.threads[a.tid].pc.seen, a.step.spurious)
    ensures Apply(s, a).stack == s.stack
  {
  }

  lemma WinPushes(s: State, t: Tid)
    requires WinningRelease(s, t)
    ensures ChangeOf(View(s), View(SwapRelease(s, t, false)), t) == [Pushed(s.threads[t].pc.buf)]
  {
    var p, p' := View(s), View(SwapRelease(s, t, false));
    var b := s.threads[t].pc.buf;
    assert PcOk(s, s.threads[t]);
    assert p'.holds == p.holds[t := p.holds[t] - {b}];
    assert |p'.free| != |p.free|;
  }

  lemma WinPops(s: State, t: Tid)
    requires WinningAcquire(s, t)
    ensures s.stack != []
    ensures ChangeOf(View(s), View(SwapAcquire(s, t, false)), t) == [Popped(s.stack[0])]
  {
    AcquireRefines(s, t);
    var p, p' := View(s), View(SwapAcquire(s, t, false));
    assert |p'.free| == |p.free| - 1;
    assert p'.free != [] ==> |[p'.free[0]] + p.free| != |p'.free|;
  }

  // ----- Release -----

  /** After its swap, a call does nothing more to the free list. */
  lemma {:induction false} AfterSwap(s: State, run: seq<Action>, t: Tid)
    requires Inv(s) && Scheduled(s, run) && Runs(s, run) && Returns(s, run, t)
    requires t in s.threads && (s.threads[t].pc.RelWon? || s.threads[t].pc.AcqWon? || s.threads[t].pc.Idle?)
    ensures Changes(s, run, t) == []
    decreases |run|
  {
    hide Inv, Scheduled, ChangeOf, Apply;
    if run != [] {
      var s' := Apply(s, run[0]);
      StepUnfolds(s, run);
      if run[0].tid == t {
        NoChange(s, run[0]);
        WonStep(s, run[0]);
      } else {
        OthersKeepPc(s, run[0], t);
      }
      AfterSwap(s', run[1..], t);
    }
  }

  lemma StepUnfolds(s: State, run: seq<Action>)
    requires Inv(s) && Scheduled(s, run) && run != []
    ensures CanStep(s, run[0]) && WithinVersionRange(s, run[0])
    ensures Inv(Apply(s, run[0])) && Scheduled(Apply(s, run[0]), run[1..])
  {
    StepKeepsInv(s, run[0]);
  }

  lemma WonStep(s: State, a: Action)
    requires CanStep(s, a) && (s.threads[a.tid].pc.RelWon? || s.threads[a.tid].pc.AcqWon?)
    ensures a.tid in Apply(s, a).threads
    ensures var pc := Apply(s, a).threads[a.tid].pc; pc.RelWon? || pc.AcqWon? || pc.Idle?
  {
  }

  /** What a step of a releasing thread does: it goes on releasing the same buffer, or its swap wins. */
  lemma ReleaseStep(s: State, a: Action)
    requires CanStep(s, a) && (s.threads[a.tid].pc.RelLoaded? || s.threads[a.tid].pc.RelLinked?)
    ensures a.tid in Apply(s, a).threads
    ensures var pc := Apply(s, a).threads[a.tid].pc;
      if a.step.SwapForRelease? && Wins(s, s.threads[a.tid].pc.seen, a.step.spurious) then pc.RelWon?
      else (pc.RelLoaded? || pc.RelLinked?) && pc.buf == s.threads[a.tid].pc.buf
    ensures IsSwap(a.step) ==> a.step.SwapForRelease?
  {
  }

  lemma {:induction false} ReleaseGoesOn(s: State, run: seq<Action>, t: Tid)
    requires Inv(s) && Scheduled(s, run) && Runs(s, run) && Returns(s, run, t)
    requires t in s.threads && (s.threads[t].pc.RelLoaded? || s.threads[t].pc.RelLinked?)
    ensures Changes(s, run, t) == [Pushed(s.threads[t].pc.buf)]
    decreases |run|
  {
    hide Inv, Scheduled, ChangeOf, Apply, WithinVersionRange;
    assert run != [];
    var s', a := Apply(s, run[0]), run[0];
    StepUnfolds(s, run);
    if a.tid != t {
      OthersKeepPc(s, a, t);
      ReleaseGoesOn(s', run[1..], t);
    } else {
      ReleaseStep(s, a);
      if a.step.SwapForRelease? && Wins(s, s.threads[t].pc.seen, a.step.spurious) {
        ReleaseWins(s, a);
        AfterSwap(s', run[1..], t);
      } else {
        NoChange(s, a);
        ReleaseGoesOn(s', run[1..], t);
      }
    }
  }

  lemma ReleaseWins(s: State, a: Action)
    requires Inv(s) && CanStep(s, a) && WithinVersionRange(s, a) && a.step.SwapForRelease?
    requires Wins(s, s.threads[a.tid].pc.seen, a.step.spurious)
    ensures ChangeOf(View(s), View(Apply(s, a)), a.tid) == [Pushed(s.threads[a.tid].pc.buf)]
  {
    hide Inv, ChangeOf;
    assert a == Action(a.tid, SwapForRelease(false));
    WinPushes(s, a.tid);
  }

  /** A call of `release(b)` that returns has pushed `b`, once, and done nothing else to the free list: from the
      push on the thread does not hold `b` any more. */
  lemma ReleaseReturns(s: State, run: seq<Action>, t: Tid, b: nat)
    requires Inv(s) && Scheduled(s, run) && Runs(s, run) && Call(s, run, t) && run[0].step == LoadForRelease(b)
    ensures Changes(s, run, t) == [Pushed(b)]
  {
    hide Inv, Scheduled, ChangeOf;
    StepUnfolds(s, run);
    NoChange(s, run[0]);
    ReleaseGoesOn(Apply(s, run[0]), run[1..], t);
  }

  // ----- Acquire -----

  /** The head word says whether the free list is empty. */
  lemma EmptyHead(s: State)
    requires FreeListOk(s)
    ensures IsEmpty(s.head) <==> s.stack == []
  {
  }

  /** What a step of an acquiring thread does. */
  lemma AcquireStep(s: State, a: Action)
    requires Inv(s) && CanStep(s, a) && (s.threads[a.tid].pc.AcqLoaded? || s.threads[a.tid].pc.AcqRead?)
    ensures a.tid in Apply(s, a).threads
    ensures var pc, pc' := s.threads[a.tid].pc, Apply(s, a).threads[a.tid].pc;
      if a.step.SwapForAcquire? && Wins(s, pc.seen, a.step.spurious) then pc'.AcqWon?
      else if a.step.SwapForAcquire? then pc' == AcqLoaded(s.head, s.cas)
      else if a.step.GiveUp? then pc'.Idle? && IsEmpty(pc.seen)
      else (pc'.AcqLoaded? || pc'.AcqRead?) && pc'.seen == pc.seen && !LoadsHead(a.step)
    ensures IsSwap(a.step) ==> a.step.SwapForAcquire?
  {
  }

  lemma AcquireWins(s: State, a: Action)
    requires Inv(s) && CanStep(s, a) && WithinVersionRange(s, a) && a.step.SwapForAcquire?
    requires Wins(s, s.threads[a.tid].pc.seen, a.step.spurious)
    ensures exists b :: ChangeOf(View(s), View(Apply(s, a)), a.tid) == [Popped(b)]
  {
    hide Inv, ChangeOf;
    assert a == Action(a.tid, SwapForAcquire(false));
    WinPops(s, a.tid);
  }

  lemma {:induction false} AcquireGoesOn(s: State, run: seq<Action>, t: Tid, last: seq<nat>)
    requires Inv(s) && Scheduled(s, run) && Runs(s, run) && Returns(s, run, t)
    requires t in s.threads && (s.threads[t].pc.AcqLoaded? || s.threads[t].pc.AcqRead?)
    requires IsEmpty(s.threads[t].pc.seen) <==> last == []
    ensures (exists b :: Changes(s, run, t) == [Popped(b)])
      || (Changes(s, run, t) == [] && LastSeen(s, run, t, Some(last)) == Some([]))
    decreases |run|
  {
    hide Inv, Scheduled, ChangeOf, Apply, WithinVersionRange;
    assert run != [];
    var s', a := Apply(s, run[0]), run[0];
    StepUnfolds(s, run);
    if a.tid != t {
      OthersKeepPc(s, a, t);
      AcquireGoesOn(s', run[1..], t, last);
    } else {
      AcquireStep(s, a);
      if a.step.SwapForAcquire? && Wins(s, s.threads[t].pc.seen, a.step.spurious) {
        AcquireWins(s, a);
        AfterSwap(s', run[1..], t);
      } else {
        NoChange(s, a);
        if a.step.GiveUp? {
          ReturnsAtOnce(s', run[1..], t);
        } else {
          HeadLoaded(s);
          AcquireGoesOn(s', run[1..], t, if a.step.SwapForAcquire? then s.stack else last);
        }
      }
    }
  }

  lemma HeadLoaded(s: State)
    requires Inv(s)
    ensures IsEmpty(s.head) <==> s.stack == []
  {
    hide OwnershipOk, ThreadsOk, ProgressOk, CounterOk, Chain;
    EmptyHead(s);
  }

  lemma ReturnsAtOnce(s: State, run: seq<Action>, t: Tid)
    requires Runs(s, run) && Returns(s, run, t) && !InCall(s, t)
    ensures run == []
  {
  }

  /** A call of `acquire` that returns has popped one buffer, which the thread holds from then on; or it has done
      nothing to the free list, and that was empty when the call last looked. */
  lemma AcquireReturns(s: State, run: seq<Action>, t: Tid)
    requires Inv(s) && Scheduled(s, run) && Runs(s, run) && Call(s, run, t) && run[0].step == LoadForAcquire
    ensures (exists b :: Changes(s, run, t) == [Popped(b)])
      || (Changes(s, run, t) == [] && LastSeen(s, run, t, None) == Some([]))
  {
    hide Inv, Scheduled, ChangeOf;
    StepUnfolds(s, run);
    NoChange(s, run[0]);
    HeadLoaded(s);
    AcquireGoesOn(Apply(s, run[0]), run[1..], t, s.stack);
  }

  // ----- Calls in runs from the constructor -----

  lemma {:induction false} RunSplits(s: State, before: seq<Action>, after: seq<Action>)
    requires Inv(s) && Scheduled(s, before + after)
    ensures Scheduled(s, before) && Runs(s, before)
    ensures Inv(Exec(s, before)) && Scheduled(Exec(s, before), after) && Runs(Exec(s, before), after)
    decreases |before|
  {
    hide Inv;
    if before == [] {
      assert before + after == after;
      RunKeepsInv(s, after);
    } else {
      assert (before + after)[0] == before[0] && (before + after)[1..] == before[1..] + after;
      StepUnfolds(s, before + after);
      RunSplits(Apply(s, before[0]), before[1..], after);
    }
  }

  /** In every run from the constructor on, wherever a call of thread `t` starts and returns: a release has pushed
      its buffer once, and an acquire has popped one or found the list empty. */
  lemma CallsOfRun(s: State, before: seq<Action>, call: seq<Action>, t: Tid)
    requires Init(s) && Scheduled(s, before + call)
    ensures Runs(s, before) && Runs(Exec(s, before), call)
    ensures Call(Exec(s, before), call, t) ==>
      var e := Exec(s, before);
      && (forall b :: call[0].step == LoadForRelease(b) ==> Changes(e, call, t) == [Pushed(b)])
      && (call[0].step == LoadForAcquire ==>
            || (exists b :: Changes(e, call, t) == [Popped(b)])
            || (Changes(e, call, t) == [] && LastSeen(e, call, t, None) == Some([])))
      && (call[0].step == LoadForAcquire || call[0].step.LoadForRelease?)
  {
    hide Inv, Scheduled, ChangeOf;
    InitInv(s);
    RunSplits(s, before, call);
    var e := Exec(s, before);
    if Call(e, call, t) {
      StartsCall(e, call, t);
      if call[0].step == LoadForAcquire {
        AcquireReturns(e, call, t);
      } else {
        ReleaseReturns(e, call, t, call[0].step.buf);
      }
    }
  }

  lemma StartsCall(s: State, run: seq<Action>, t: Tid)
    requires Runs(s, run) && Call(s, run, t)
    ensures run[0].step == LoadForAcquire || run[0].step.LoadForRelease?
  {
  }
}
