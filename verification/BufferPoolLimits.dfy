/**
 Where the guarantees of the lock-free free list end: the exact reading of `available()`, and
 the wrap-around of the 32-bit version tag.
 */
module BufferPoolLimits {
  import opened Arith
  import opened Seqs
  import opened BufferPool

  // ----- Composing runs -----

  /** At most `n` swaps succeeded between this thread's load and its swap. */
  predicate SwapWithin(s: State, a: Action, n: nat)
    requires Enabled(s, a)
  {
    (a.step.SwapForAcquire? || a.step.SwapForRelease?) ==> s.cas <= s.threads[a.tid].pc.at + n
  }

  /** A run of the unrestricted machine in which no more than `n` swaps succeed during any pending one. */
  predicate RunsWithin(s: State, run: seq<Action>, n: nat)
    decreases |run|
  {
    run == [] || (CanStep(s, run[0]) && SwapWithin(s, run[0], n) && RunsWithin(Apply(s, run[0]), run[1..], n))
  }

  function Allowance(strict: bool): nat { if strict then M32 - 1 else M32 }

  /** The states a run passes through; `strict` keeps every swap within the version range, otherwise one more swap
      may come in between. */
  ghost predicate IsPath(path: seq<State>, run: seq<Action>, strict: bool)
  {
    && |path| == |run| + 1
    && forall i :: 0 <= i < |run| ==>
         && CanStep(path[i], run[i])
         && path[i + 1] == Apply(path[i], run[i])
         && SwapWithin(path[i], run[i], Allowance(strict))
  }

  ghost predicate Leads(s: State, run: seq<Action>, e: State, strict: bool)
  {
    exists path :: IsPath(path, run, strict) && path[0] == s && path[|run|] == e
  }

  lemma {:induction false} PathMeansRun(path: seq<State>, run: seq<Action>, strict: bool)
    requires IsPath(path, run, strict)
    ensures Runs(path[0], run) && Exec(path[0], run) == path[|run|]
    ensures RunsWithin(path[0], run, Allowance(strict)) && (strict ==> Scheduled(path[0], run))
    decreases |run|
  {
    if run != [] {
      var p, r := path[1..], run[1..];
      forall i | 0 <= i < |r|
        ensures CanStep(p[i], r[i]) && p[i + 1] == Apply(p[i], r[i]) && SwapWithin(p[i], r[i], Allowance(strict))
      {
        assert CanStep(path[i + 1], run[i + 1]);
      }
      PathMeansRun(p, r, strict);
      assert CanStep(path[0], run[0]);
    }
  }

  lemma LeadsMeansRun(s: State, run: seq<Action>, e: State, strict: bool)
    requires Leads(s, run, e, strict)
    ensures Runs(s, run) && Exec(s, run) == e && RunsWithin(s, run, Allowance(strict)) && (strict ==> Scheduled(s, run))
  {
    var path :| IsPath(path, run, strict) && path[0] == s && path[|run|] == e;
    PathMeansRun(path, run, strict);
  }

  lemma LeadsConcat(s: State, p: seq<Action>, m: State, q: seq<Action>, e: State, strict: bool)
    requires Leads(s, p, m, strict) && Leads(m, q, e, strict)
    ensures Leads(s, p + q, e, strict)
  {
    hide Enabled, InArena, Apply, SwapWithin;
    var a :| IsPath(a, p, strict) && a[0] == s && a[|p|] == m;
    var b :| IsPath(b, q, strict) && b[0] == m && b[|q|] == e;
    PathConcat(a, p, b, q, strict);
    assert IsPath(a + b[1..], p + q, strict);
  }

  lemma PathConcat(a: seq<State>, p: seq<Action>, b: seq<State>, q: seq<Action>, strict: bool)
    requires IsPath(a, p, strict) && IsPath(b, q, strict) && a[|p|] == b[0]
    ensures IsPath(a + b[1..], p + q, strict)
  {
    hide Enabled, InArena, Apply, SwapWithin;
    var c := a + b[1..];
    forall i | 0 <= i < |p + q|
      ensures CanStep(c[i], (p + q)[i]) && c[i + 1] == Apply(c[i], (p + q)[i])
      ensures SwapWithin(c[i], (p + q)[i], Allowance(strict))
    {
      if i < |p| {
        assert (p + q)[i] == p[i] && c[i] == a[i] && c[i + 1] == a[i + 1];
        assert CanStep(a[i], p[i]);
      } else {
        var k := i - |p|;
        assert (p + q)[i] == q[k] && c[i] == b[k] && c[i + 1] == b[k + 1];
        assert CanStep(b[k], q[k]);
      }
    }
  }

  lemma LeadsThrice(s: State, p: seq<Action>, s1: State, q: seq<Action>, s2: State, r: seq<Action>, e: State,
    strict: bool)
    requires Leads(s, p, s1, strict) && Leads(s1, q, s2, strict) && Leads(s2, r, e, strict)
    ensures Leads(s, p + (q + r), e, strict)
  {
    LeadsConcat(s1, q, s2, r, e, strict);
    LeadsConcat(s, p, s1, q + r, e, strict);
  }

  lemma LeadsOne(s: State, a: Action, e: State, strict: bool)
    requires CanStep(s, a) && Apply(s, a) == e && SwapWithin(s, a, Allowance(strict))
    ensures Leads(s, [a], e, strict)
  {
    assert IsPath([s, e], [a], strict);
  }

  lemma FourSteps(s: State, a: Action, s1: State, b: Action, s2: State, c: Action, s3: State, d: Action, e: State)
    requires Leads(s, [a], s1, true) && Leads(s1, [b], s2, true) && Leads(s2, [c], s3, true) && Leads(s3, [d], e, true)
    ensures Leads(s, [a, b, c, d], e, true)
  {
    LeadsThrice(s1, [b], s2, [c], s3, [d], e, true);
    LeadsConcat(s, [a], s1, [b] + ([c] + [d]), e, true);
    assert [a] + ([b] + ([c] + [d])) == [a, b, c, d];
  }

  lemma Relax(s: State, run: seq<Action>, e: State)
    requires Leads(s, run, e, true)
    ensures Leads(s, run, e, false)
  {
    var path :| IsPath(path, run, true) && path[0] == s && path[|run|] == e;
    assert IsPath(path, run, false);
  }

  // ----- A whole call without interference -----

  function AcquireSteps(t: Tid): seq<Action>
  {
    [Action(t, LoadForAcquire), Action(t, ReadNext), Action(t, SwapForAcquire(false)), Action(t, CountDown)]
  }

  /** Everything of `release` but the final counter update. */
  function ReturnSteps(t: Tid, b: nat): seq<Action>
  {
    [Action(t, LoadForRelease(b)), Action(t, LinkNode), Action(t, SwapForRelease(false))]
  }

  predicate Ready(s: State, t: Tid)
  {
    && t in s.threads && s.threads[t].pc.Idle?
    && s.head.index < |s.next| <= MAX_COUNT
    && forall i :: 0 <= i < |s.next| ==> s.next[i] < M32
  }

  function AfterAcquire(s: State, t: Tid): State
    requires Ready(s, t)
  {
    var th := s.threads[t];
    State(Bump(s.head, s.next[s.head.index]), s.next, (s.available + M64 - 1) % M64,
          s.threads[t := th.(held := th.held + {s.head.index}, wins := th.wins + 1)],
          s.cas + 1, if s.stack == [] then [] else s.stack[1..])
  }

  function AfterReturn(s: State, t: Tid, b: nat): State
    requires t in s.threads && b < |s.next|
  {
    var th := s.threads[t];
    State(Bump(s.head, b), s.next[b := if IsEmpty(s.head) then NIL else s.head.index], s.available,
          s.threads[t := th.(pc := RelWon, held := th.held - {b}, wins := th.wins + 1)],
          s.cas + 1, [b] + s.stack)
  }

  lemma SoloAcquire(s: State, t: Tid)
    requires Ready(s, t)
    ensures Leads(s, AcquireSteps(t), AfterAcquire(s, t), true)
  {
    var th := s.threads[t];
    var next := s.next[s.head.index];
    var s1 := SetThread(s, t, th.(pc := AcqLoaded(s.head, s.cas)));
    var s2 := SetThread(s, t, th.(pc := AcqRead(s.head, s.cas, next)));
    var s3 := AfterAcquire(s, t).(available := s.available,
      threads := s.threads[t := th.(pc := AcqWon, held := th.held + {s.head.index}, wins := th.wins + 1)]);
    var s4 := AfterAcquire(s, t);
    assert s1.threads[t := s2.threads[t]] == s2.threads;
    assert s2.threads[t := s3.threads[t]] == s3.threads;
    assert s3.threads[t := s4.threads[t]] == s4.threads;
    LeadsOne(s, Action(t, LoadForAcquire), s1, true);
    LeadsOne(s1, Action(t, ReadNext), s2, true);
    LeadsOne(s2, Action(t, SwapForAcquire(false)), s3, true);
    LeadsOne(s3, Action(t, CountDown), s4, true);
    FourSteps(s, Action(t, LoadForAcquire), s1, Action(t, ReadNext), s2,
      Action(t, SwapForAcquire(false)), s3, Action(t, CountDown), s4);
  }

  lemma SoloReturn(s: State, t: Tid, b: nat)
    requires t in s.threads && s.threads[t].pc.Idle? && b in s.threads[t].held && b < |s.next| <= MAX_COUNT
    ensures Leads(s, ReturnSteps(t, b), AfterReturn(s, t, b), true)
  {
    var th := s.threads[t];
    var s1 := SetThread(s, t, th.(pc := RelLoaded(b, s.head, s.cas)));
    var s2 := SetThread(s, t, th.(pc := RelLinked(b, s.head, s.cas)))
      .(next := s.next[b := if IsEmpty(s.head) then NIL else s.head.index]);
    var s3 := AfterReturn(s, t, b);
    assert s1.threads[t := s2.threads[t]] == s2.threads;
    assert s2.threads[t := s3.threads[t]] == s3.threads;
    LeadsOne(s, Action(t, LoadForRelease(b)), s1, true);
    LeadsOne(s1, Action(t, LinkNode), s2, true);
    LeadsOne(s2, Action(t, SwapForRelease(false)), s3, true);
    LeadsThrice(s, [Action(t, LoadForRelease(b))], s1, [Action(t, LinkNode)], s2, [Action(t, SwapForRelease(false))],
      s3, true);
    assert [Action(t, LoadForRelease(b))] + ([Action(t, LinkNode)] + [Action(t,
      SwapForRelease(false))]) == ReturnSteps(t, b);
  }

  // ----- available(): exactly when it tells the truth -----

  /** With fewer than 2^64 threads, `available()` equals the number of free buffers if and only
      if as many calls are about to decrement the counter as are about to increment it. */
  lemma AvailableExactIff(s: State, run: seq<Action>)
    requires Init(s) && Scheduled(s, run)
    ensures Runs(s, run)
    ensures var e := Exec(s, run);
      |e.threads| < M64 ==> (e.available == |e.stack| <==> |Decrementing(e)| == |Incrementing(e)|)
  {
    InitInv(s);
    RunKeepsInv(s, run);
    if |Exec(s, run).threads| < M64 {
      ExactIff(Exec(s, run));
    }
  }

  lemma ExactIff(e: State)
    requires Inv(e) && |e.threads| < M64
    ensures e.available == |e.stack| <==> |Decrementing(e)| == |Incrementing(e)|
  {
    DistinctFits(e.stack, |e.next|);
    Smaller(Decrementing(e), e.threads.Keys);
    Smaller(Incrementing(e), e.threads.Keys);
    ResidueIff(|e.stack|, |Decrementing(e)|, |Incrementing(e)|);
  }

  lemma ResidueIff(free: nat, down: nat, up: nat)
    requires free < M64 && down < M64 && up < M64
    ensures (free + down - up) % M64 == free <==> down == up
  {
    var d := down - up;
    if 0 <= free + d < M64 {
    } else if free + d >= M64 {
      assert (free + d) % M64 == free + d - M64;
    } else {
      assert (free + d) % M64 == free + d + M64;
    }
  }

  lemma {:induction false} Smaller(a: set<Tid>, b: set<Tid>)
    requires a <= b
    ensures |a| <= |b|
    decreases a
  {
    if a != {} {
      var t :| t in a;
      Smaller(a - {t}, b - {t});
    }
  }

  /** A pool of one buffer and two threads. */
  function TinyPool(): State
  {
    State(Word(0, 0), [NIL], 1, map[0 := Thread(Idle, {}, 0, 0), 1 := Thread(Idle, {}, 0, 0)], 0, [0])
  }

  /** Thread 0 takes and returns the buffer but has not counted it back yet; thread 1 takes it. */
  function UnderflowRun(): seq<Action>
  {
    AcquireSteps(0) + (ReturnSteps(0, 0) + AcquireSteps(1))
  }

  /** `available()` can read 2^64 - 1 in an empty pool: the exactness condition is needed. */
  lemma AvailableCanWrap()
    ensures var s, run := TinyPool(), UnderflowRun();
      && Init(s) && Scheduled(s, run) && Runs(s, run)
      && Exec(s, run).stack == [] && Exec(s, run).available == M64 - 1
  {
    TinyStates();
    var s0 := TinyPool();
    var s1 := AfterAcquire(s0, 0);
    var s2 := AfterReturn(s1, 0, 0);
    var s3 := AfterAcquire(s2, 1);
    SoloAcquire(s0, 0);
    SoloReturn(s1, 0, 0);
    SoloAcquire(s2, 1);
    LeadsThrice(s0, AcquireSteps(0), s1, ReturnSteps(0, 0), s2, AcquireSteps(1), s3, true);
    LeadsMeansRun(s0, UnderflowRun(), s3, true);
  }

  lemma TinyStates()
    ensures var s0 := TinyPool();
      && Init(s0) && Ready(s0, 0)
      && var s1 := AfterAcquire(s0, 0);
      && s1.threads[0].pc.Idle? && 0 in s1.threads[0].held && |s1.next| == 1
      && var s2 := AfterReturn(s1, 0, 0);
      && Ready(s2, 1)
      && AfterAcquire(s2, 1).stack == [] && AfterAcquire(s2, 1).available == M64 - 1
  {
    assert Iota(1) == [0];
  }

  // ----- The version range is tight -----

  /** Thread 0 has loaded the head (version 0, index 0), read the successor 1 and stopped;
      thread 1 holds buffers 1 and 2 and, after `v` successful swaps, buffer 0 is on top again. */
  function StalledState(v: nat): State
  {
    State(Word(v % M32, 0), [3, 2, 3, NIL], 2,
          map[0 := Thread(AcqRead(Word(0, 0), 0, 1), {}, 0, 0), 1 := Thread(Idle, {1, 2}, v, 0)],
          v, [0, 3])
  }

  function RoundTrip(): seq<Action>
  {
    AcquireSteps(1) + (ReturnSteps(1, 0) + [Action(1, CountUp)])
  }

  /** Buffer 0 taken out again, before it is put back. */
  function HeldState(v: nat): State
  {
    State(Word((v % M32 + 1) % M32, 3), [3, 2, 3, NIL], 1,
          StalledState(v).threads[1 := Thread(Idle, {0, 1, 2}, v + 1, 0)], v + 1, [3])
  }

  lemma RoundTripStates(v: nat)
    ensures Ready(StalledState(v), 1) && AfterAcquire(StalledState(v), 1) == HeldState(v)
    ensures var s2 := AfterReturn(HeldState(v), 1, 0);
      CanStep(s2, Action(1, CountUp)) && Apply(s2, Action(1, CountUp)) == StalledState(v + 2)
  {
    var s := StalledState(v);
    assert {1, 2} + {0} == {0, 1, 2} && {0, 1, 2} - {0} == {1, 2};
    assert AfterAcquire(s, 1).threads == HeldState(v).threads;
    var s3 := Apply(AfterReturn(HeldState(v), 1, 0), Action(1, CountUp));
    VersionTwice(v);
    assert s3.next == [3, 2, 3, NIL] && s3.stack == [0, 3];
    assert s3.threads == StalledState(v + 2).threads;
  }

  /** Taking buffer 0 and putting it back costs two versions and changes nothing else. */
  lemma RoundTripLeads(v: nat)
    ensures Leads(StalledState(v), RoundTrip(), StalledState(v + 2), true)
  {
    RoundTripStates(v);
    var s, s1 := StalledState(v), HeldState(v);
    SoloAcquire(s, 1);
    SoloReturn(s1, 1, 0);
    var s2 := AfterReturn(s1, 1, 0);
    LeadsOne(s2, Action(1, CountUp), StalledState(v + 2), true);
    LeadsThrice(s, AcquireSteps(1), s1, ReturnSteps(1, 0), s2, [Action(1, CountUp)], StalledState(v + 2), true);
  }

  lemma VersionTwice(v: nat)
    ensures ((v % M32 + 1) % M32 + 1) % M32 == (v + 2) % M32
  {
  }

  function RoundTrips(k: nat): seq<Action>
  {
    if k == 0 then [] else RoundTrip() + RoundTrips(k - 1)
  }

  lemma {:induction false} RoundTripsLead(v: nat, k: nat)
    ensures Leads(StalledState(v), RoundTrips(k), StalledState(v + 2 * k), true)
    decreases k
  {
    if k == 0 {
      assert IsPath([StalledState(v)], [], true);
    } else {
      RoundTripLeads(v);
      RoundTripsLead(v + 2, k - 1);
      LeadsConcat(StalledState(v), RoundTrip(), StalledState(v + 2), RoundTrips(k - 1), StalledState(v + 2 * k), true);
    }
  }

  function FourBuffers(): State
  {
    State(Word(0, 0), [1, 2, 3, NIL], 4, map[0 := Thread(Idle, {}, 0, 0), 1 := Thread(Idle, {}, 0, 0)], 0, [0, 1, 2, 3])
  }

  function StallSteps(): seq<Action> { [Action(0, LoadForAcquire), Action(0, ReadNext)] }

  function TakeThree(): seq<Action> { AcquireSteps(1) + (AcquireSteps(1) + AcquireSteps(1)) }

  function PutBack(): seq<Action> { ReturnSteps(1, 0) + [Action(1, CountUp)] }

  function StalledEarly(): State
  {
    FourBuffers().(threads := map[0 := Thread(AcqRead(Word(0, 0), 0, 1), {}, 0, 0), 1 := Thread(Idle, {}, 0, 0)])
  }

  lemma StallLeads()
    ensures Leads(FourBuffers(), StallSteps(), StalledEarly(), true)
  {
    var s0, s2 := FourBuffers(), StalledEarly();
    var s1 := Apply(s0, Action(0, LoadForAcquire));
    assert Apply(s1, Action(0, ReadNext)).threads == s2.threads;
    assert IsPath([s0, s1, s2], StallSteps(), true);
  }

  /** Thread 1 has taken the first `n` buffers while thread 0 is stalled. */
  function Taken(n: nat, held: set<nat>, free: seq<nat>): State
    requires n <= 3
  {
    State(Word(n, n), [1, 2, 3, NIL], 4 - n, StalledEarly().threads[1 := Thread(Idle, held, n, 0)], n, free)
  }

  lemma TakeOne(n: nat, held: set<nat>, free: seq<nat>)
    requires n < 3
    ensures Leads(Taken(n, held, [n] + free), AcquireSteps(1), Taken(n + 1, held + {n}, free), true)
  {
    var s, e := Taken(n, held, [n] + free), Taken(n + 1, held + {n}, free);
    assert s.next[n] == n + 1;
    assert Ready(s, 1);
    assert ([n] + free)[1..] == free;
    assert AfterAcquire(s, 1).threads == e.threads;
    SoloAcquire(s, 1);
  }

  function AllTaken(): State { Taken(3, {} + {0} + {1} + {2}, [3]) }

  lemma TakeThreeLeads()
    ensures Leads(StalledEarly(), TakeThree(), AllTaken(), true)
  {
    TakeOne(0, {}, [1, 2, 3]);
    TakeOne(1, {} + {0}, [2, 3]);
    TakeOne(2, {} + {0} + {1}, [3]);
    var a, b := Taken(1, {} + {0}, [1] + [2, 3]), Taken(2, {} + {0} + {1}, [2] + [3]);
    assert [0] + [1, 2, 3] == [0, 1, 2, 3] && [1] + [2, 3] == [1, 2, 3] && [2] + [3] == [2, 3];
    assert StalledEarly().threads == Taken(0, {}, [0, 1, 2, 3]).threads;
    assert StalledEarly() == Taken(0, {}, [0, 1, 2, 3]);
    LeadsThrice(StalledEarly(), AcquireSteps(1), a, AcquireSteps(1), b, AcquireSteps(1), AllTaken(), true);
  }

  lemma PutBackState()
    ensures AllTaken().threads[1] == Thread(Idle, {0, 1, 2}, 3, 0)
    ensures CanStep(AfterReturn(AllTaken(), 1, 0), Action(1, CountUp))
    ensures Apply(AfterReturn(AllTaken(), 1, 0), Action(1, CountUp)) == StalledState(4)
  {
    var s1 := AfterReturn(AllTaken(), 1, 0);
    var s2 := Apply(s1, Action(1, CountUp));
    assert {} + {0} + {1} + {2} == {0, 1, 2};
    assert {0, 1, 2} - {0} == {1, 2};
    assert s2.next == [3, 2, 3, NIL] && s2.stack == [0, 3];
    assert s2.threads == StalledState(4).threads;
  }

  lemma PutBackLeads()
    ensures Leads(AllTaken(), PutBack(), StalledState(4), true)
  {
    PutBackState();
    var s := AllTaken();
    SoloReturn(s, 1, 0);
    var s1 := AfterReturn(s, 1, 0);
    LeadsOne(s1, Action(1, CountUp), StalledState(4), true);
    LeadsConcat(s, ReturnSteps(1, 0), s1, [Action(1, CountUp)], StalledState(4), true);
  }

  lemma FourBuffersInit()
    ensures Init(FourBuffers())
  {
    assert Iota(4) == [0, 1, 2, 3];
  }

  ghost predicate Reaches(s: State, e: State, strict: bool)
  {
    exists run :: Leads(s, run, e, strict)
  }

  lemma ReachesTrans(s: State, m: State, e: State, strict: bool)
    requires Reaches(s, m, strict) && Reaches(m, e, strict)
    ensures Reaches(s, e, strict)
  {
    var p :| Leads(s, p, m, strict);
    var q :| Leads(m, q, e, strict);
    LeadsConcat(s, p, m, q, e, strict);
  }

  lemma ReachesRelax(s: State, e: State)
    requires Reaches(s, e, true)
    ensures Reaches(s, e, false)
  {
    var p :| Leads(s, p, e, true);
    Relax(s, p, e);
  }

  lemma ReachTaken()
    ensures Reaches(FourBuffers(), AllTaken(), true)
  {
    StallLeads();
    TakeThreeLeads();
    ReachesTrans(FourBuffers(), StalledEarly(), AllTaken(), true);
  }

  lemma ReachStalled()
    ensures Reaches(FourBuffers(), StalledState(4), true)
  {
    ReachTaken();
    PutBackLeads();
    ReachesTrans(FourBuffers(), AllTaken(), StalledState(4), true);
  }

  lemma ReachWrapped()
    ensures Reaches(FourBuffers(), StalledState(M32), true)
  {
    hide StalledState, FourBuffers, RoundTrips, Leads;
    ReachStalled();
    RoundTripsLead(4, (M32 - 4) / 2);
    assert Leads(StalledState(4), RoundTrips((M32 - 4) / 2), StalledState(M32), true);
    ReachesTrans(FourBuffers(), StalledState(4), StalledState(M32), true);
  }

  function StaleSwapResult(): State
  {
    State(Word(1, 1), [3, 2, 3, NIL], 1,
          map[0 := Thread(Idle, {0}, 1, 0), 1 := Thread(Idle, {1, 2}, M32, 0)], M32 + 1, [3])
  }

  /** With exactly 2^32 successes between thread 0's load and its swap the swap goes through and
      installs the stale successor 1, which thread 1 holds. */
  lemma StaleSwapLeads()
    ensures Leads(StalledState(M32), [Action(0, SwapForAcquire(false)), Action(0, CountDown)], StaleSwapResult(), false)
  {
    var s := StalledState(M32);
    var s1 := Apply(s, Action(0, SwapForAcquire(false)));
    var s2 := Apply(s1, Action(0, CountDown));
    assert s2.stack == [3];
    assert s2.threads[0] == Thread(Idle, {0}, 1, 0);
    assert s2.threads == StaleSwapResult().threads;
    assert IsPath([s, s1, s2], [Action(0, SwapForAcquire(false)), Action(0, CountDown)], false);
  }

  ghost predicate SharesBuffer(s: State, b: nat)
  {
    exists t, u :: t != u && Holds(s, t, b) && Holds(s, u, b)
  }

  /** The bound in `WithinVersionRange` cannot be raised by one: there is a run in which at most 2^32 swaps succeed
      between any load and its swap and which hands one buffer to two threads; with at most 2^32 - 1 there is none. */
  lemma VersionRangeIsTight()
    ensures Init(FourBuffers())
    ensures exists run ::
      Runs(FourBuffers(), run) && RunsWithin(FourBuffers(), run, M32) && SharesBuffer(Exec(FourBuffers(), run), 1)
    ensures forall s, run, b: nat ::
      Init(s) && Runs(s, run) && RunsWithin(s, run, M32 - 1) ==> !SharesBuffer(Exec(s, run), b)
  {
    FourBuffersInit();
    var e := ReachShared();
    var run :| Leads(FourBuffers(), run, e, false);
    LeadsMeansRun(FourBuffers(), run, e, false);
    forall s, run, b: nat | Init(s) && Runs(s, run) && RunsWithin(s, run, M32 - 1)
      ensures !SharesBuffer(Exec(s, run), b)
    {
      WithinIsScheduled(s, run);
      NoBufferLostOrShared(s, run);
    }
  }

  lemma {:induction false} WithinIsScheduled(s: State, run: seq<Action>)
    requires RunsWithin(s, run, M32 - 1)
    ensures Scheduled(s, run)
    decreases |run|
  {
    if run != [] {
      WithinIsScheduled(Apply(s, run[0]), run[1..]);
    }
  }

  lemma ReachStale()
    ensures Reaches(FourBuffers(), StaleSwapResult(), false)
  {
    ReachWrapped();
    ReachesRelax(FourBuffers(), StalledState(M32));
    StaleSwapLeads();
    ReachesTrans(FourBuffers(), StalledState(M32), StaleSwapResult(), false);
  }

  lemma ReachShared() returns (e: State)
    ensures Reaches(FourBuffers(), e, false) && SharesBuffer(e, 1)
  {
    ReachStale();
    var stale := StaleSwapResult();
    SoloAcquire(stale, 0);
    e := AfterAcquire(stale, 0);
    Relax(stale, AcquireSteps(0), e);
    ReachesTrans(FourBuffers(), stale, e, false);
    assert Holds(e, 0, 1) && Holds(e, 1, 1);
  }
}
