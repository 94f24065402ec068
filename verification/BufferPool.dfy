/**
 The lock-free free list of `BufferPool` (POSIX branch) as a step system.

 Every thread runs `acquire` and `release` one shared-memory access at a time: load the
 head word, read (or write) the intrusive `next_idx` cell, compare-and-swap the head word,
 adjust the `available_` counter.  Any number of threads interleave at that grain, and the
 owner of a buffer may overwrite the cell at any time, because `next_idx` lives in the
 first bytes of the payload.
 */
module BufferPool {
  import opened Arith
  import opened Seqs

  const NIL: nat := 0xFFFF_FFFF
  const MAX_COUNT: nat := 0x8000_0000

  // ----- The 64-bit head word -----

  /** `head_free_val_`: a 32-bit version above a 32-bit index. */
  datatype Word = Word(version: nat, index: nat)

  predicate IsWord(w: Word) { w.version < M32 && w.index < M32 }

  /** The 64-bit value the program swaps. */
  function Pack(w: Word): nat { w.version * M32 + w.index }

  /** Comparing packed values, as the swap does, is comparing words. */
  lemma PackInjective(v: Word, w: Word)
    requires IsWord(v) && IsWord(w)
    ensures Pack(v) < M64
    ensures Pack(v) == Pack(w) <==> v == w
  {
  }

  /** The index half read as an `int32_t` is negative: the free list is empty. */
  predicate IsEmpty(w: Word) { w.index >= MAX_COUNT }

  function Bump(w: Word, index: nat): Word { Word((w.version + 1) % M32, index) }

  // ----- State -----

  type Tid = nat

  /** Where a thread is in `acquire`/`release`.  `seen` is the local `old_val`; `at` records how
      many compare-and-swaps had succeeded when `seen` was loaded (a history value the program
      does not have: its 32-bit version is `at` modulo 2^32). */
  datatype Pc =
    | Idle
    | AcqLoaded(seen: Word, at: nat)
    | AcqRead(seen: Word, at: nat, next: nat)
    | AcqWon
    | RelLoaded(buf: nat, seen: Word, at: nat)
    | RelLinked(buf: nat, seen: Word, at: nat)
    | RelWon

  /** `wins` and `losses` count the thread's successful and non-spuriously failed swaps. */
  datatype Thread = Thread(pc: Pc, held: set<nat>, wins: nat, losses: nat)

  /** `cas` (successful swaps so far) and `stack` (the abstract LIFO) are history variables. */
  datatype State = State(
    head: Word,
    next: seq<nat>,
    available: nat,
    threads: map<Tid, Thread>,
    cas: nat,
    stack: seq<nat>)

  datatype Step =
    | LoadForAcquire
    | GiveUp
    | ReadNext
    | SwapForAcquire(spurious: bool)
    | CountDown
    | LoadForRelease(buf: nat)
    | LinkNode
    | SwapForRelease(spurious: bool)
    | CountUp
    | WritePayload(buf: nat, value: nat)
    | HandOver(buf: nat, to: Tid)

  datatype Action = Action(tid: Tid, step: Step)

  predicate Releasing(pc: Pc, buf: nat)
  {
    (pc.RelLoaded? || pc.RelLinked?) && pc.buf == buf
  }

  predicate Enabled(s: State, a: Action)
  {
    a.tid in s.threads &&
    var th := s.threads[a.tid];
    match a.step
    case LoadForAcquire => th.pc.Idle?
    case GiveUp => th.pc.AcqLoaded? && IsEmpty(th.pc.seen)
    case ReadNext => th.pc.AcqLoaded? && !IsEmpty(th.pc.seen)
    case SwapForAcquire(_) => th.pc.AcqRead?
    case CountDown => th.pc.AcqWon?
    case LoadForRelease(buf) => th.pc.Idle? && buf in th.held
    case LinkNode => th.pc.RelLoaded?
    case SwapForRelease(_) => th.pc.RelLinked?
    case CountUp => th.pc.RelWon?
    case WritePayload(buf, value) => buf in th.held && !Releasing(th.pc, buf) && value < M32
    case HandOver(buf, to) => buf in th.held && !Releasing(th.pc, buf) && to in s.threads && to != a.tid
  }

  /** A shared access falls outside the arena or forms an ill-typed word. */
  predicate InArena(s: State, a: Action)
    requires Enabled(s, a)
  {
    var th := s.threads[a.tid];
    match a.step
    case ReadNext => th.pc.seen.index < |s.next|
    case SwapForAcquire(_) => th.pc.next < M32
    case LinkNode => th.pc.buf < |s.next|
    case SwapForRelease(_) => th.pc.buf < M32
    case WritePayload(buf, _) => buf < |s.next|
    case _ => true
  }

  function SetThread(s: State, t: Tid, th: Thread): State
  {
    s.(threads := s.threads[t := th])
  }

  /** Whether the swap of `seen` goes through in this state. */
  predicate Wins(s: State, seen: Word, spurious: bool) { !spurious && s.head == seen }

  function LossesAfter(s: State, th: Thread, seen: Word): nat
  {
    if s.head != seen then th.losses + 1 else th.losses
  }

  function SwapAcquire(s: State, t: Tid, spurious: bool): State
    requires t in s.threads && s.threads[t].pc.AcqRead? && s.threads[t].pc.next < M32
  {
    var th := s.threads[t];
    if Wins(s, th.pc.seen, spurious) then
      s.(head := Bump(th.pc.seen, th.pc.next),
         cas := s.cas + 1,
         stack := if s.stack == [] then [] else s.stack[1..],
         threads := s.threads[t := th.(pc := AcqWon, held := th.held + {th.pc.seen.index}, wins := th.wins + 1)])
    else
      SetThread(s, t, th.(pc := AcqLoaded(s.head, s.cas), losses := LossesAfter(s, th, th.pc.seen)))
  }

  function SwapRelease(s: State, t: Tid, spurious: bool): State
    requires t in s.threads && s.threads[t].pc.RelLinked? && s.threads[t].pc.buf < M32
  {
    var th := s.threads[t];
    if Wins(s, th.pc.seen, spurious) then
      s.(head := Bump(th.pc.seen, th.pc.buf),
         cas := s.cas + 1,
         stack := [th.pc.buf] + s.stack,
         threads := s.threads[t := th.(pc := RelWon, held := th.held - {th.pc.buf}, wins := th.wins + 1)])
    else
      SetThread(s, t, th.(pc := RelLoaded(th.pc.buf, s.head, s.cas), losses := LossesAfter(s, th, th.pc.seen)))
  }

  function Apply(s: State, a: Action): State
    requires Enabled(s, a) && InArena(s, a)
  {
    var t := a.tid;
    var th := s.threads[t];
    match a.step
    case LoadForAcquire => SetThread(s, t, th.(pc := AcqLoaded(s.head, s.cas)))
    case GiveUp => SetThread(s, t, th.(pc := Idle))
    case ReadNext => SetThread(s, t, th.(pc := AcqRead(th.pc.seen, th.pc.at, s.next[th.pc.seen.index])))
    case SwapForAcquire(spurious) => SwapAcquire(s, t, spurious)
    case CountDown => SetThread(s, t, th.(pc := Idle)).(available := (s.available + M64 - 1) % M64)
    case LoadForRelease(buf) => SetThread(s, t, th.(pc := RelLoaded(buf, s.head, s.cas)))
    case LinkNode =>
      SetThread(s, t, th.(pc := RelLinked(th.pc.buf, th.pc.seen, th.pc.at)))
        .(next := s.next[th.pc.buf := if IsEmpty(th.pc.seen) then NIL else th.pc.seen.index])
    case SwapForRelease(spurious) => SwapRelease(s, t, spurious)
    case CountUp => SetThread(s, t, th.(pc := Idle)).(available := (s.available + 1) % M64)
    case WritePayload(buf, value) => s.(next := s.next[buf := value])
    case HandOver(buf, to) =>
      var s1 := SetThread(s, t, th.(held := th.held - {buf}));
      SetThread(s1, to, s1.threads[to].(held := s1.threads[to].held + {buf}))
  }

  // ----- The constructor's free list -----

  function Iota(count: nat): (s: seq<nat>)
    ensures |s| == count
    ensures forall i :: 0 <= i < count ==> s[i] == i
  {
    seq(count, i => i)
  }

  predicate InitialCells(cells: seq<nat>)
  {
    && 1 <= |cells|
    && cells[|cells| - 1] == NIL
    && forall i :: 0 <= i < |cells| - 1 ==> cells[i] == i + 1
  }

  /** The constructor's linking loop over the arena. */
  method LinkArena(count: nat) returns (cells: array<nat>, head: Word, available: nat)
    requires 1 <= count <= MAX_COUNT
    ensures fresh(cells) && cells.Length == count && InitialCells(cells[..])
    ensures head == Word(0, 0) && available == count
  {
    cells := new nat[count];
    var i := 0;
    while i < count - 1
      invariant 0 <= i <= count - 1
      invariant forall k :: 0 <= k < i ==> cells[k] == k + 1
    {
      cells[i] := (i + 1) % M32;
      i := i + 1;
    }
    cells[count - 1] := NIL;
    head, available := Word(0, 0), count;
  }

  ghost predicate Init(s: State)
  {
    && 1 <= |s.next| <= MAX_COUNT
    && InitialCells(s.next)
    && s.head == Word(0, 0)
    && s.available == |s.next|
    && s.cas == 0
    && s.stack == Iota(|s.next|)
    && forall t :: t in s.threads ==> s.threads[t] == Thread(Idle, {}, 0, 0)
  }

  // ----- Runs -----

  /** Fewer than 2^32 swaps succeeded between this thread's load and its swap. */
  predicate WithinVersionRange(s: State, a: Action)
    requires Enabled(s, a)
  {
    (a.step.SwapForAcquire? || a.step.SwapForRelease?) ==>
      s.cas < s.threads[a.tid].pc.at + M32
  }

  predicate CanStep(s: State, a: Action)
  {
    Enabled(s, a) && InArena(s, a)
  }

  /** A run of the unrestricted machine. */
  predicate Runs(s: State, run: seq<Action>)
    decreases |run|
  {
    run == [] || (CanStep(s, run[0]) && Runs(Apply(s, run[0]), run[1..]))
  }

  function Exec(s: State, run: seq<Action>): State
    requires Runs(s, run)
    decreases |run|
  {
    if run == [] then s else Exec(Apply(s, run[0]), run[1..])
  }

  /** A schedule in which every step is enabled and every swap is within the version range;
      that no step leaves the arena is a theorem, not part of the schedule. */
  predicate Scheduled(s: State, run: seq<Action>)
    decreases |run|
  {
    run == [] ||
    (Enabled(s, run[0]) && WithinVersionRange(s, run[0]) &&
     (InArena(s, run[0]) ==> Scheduled(Apply(s, run[0]), run[1..])))
  }

  // ----- The invariant -----

  function Successor(stack: seq<nat>, i: nat): nat
  {
    if i + 1 < |stack| then stack[i + 1] else NIL
  }

  /** Following `next_idx` from `first` visits exactly `stack` and ends at the sentinel. */
  ghost predicate Chain(first: nat, next: seq<nat>, stack: seq<nat>)
  {
    && first == (if stack == [] then NIL else stack[0])
    && (forall i :: 0 <= i < |stack| ==> stack[i] < |next|)
    && (forall i {:trigger Successor(stack, i)} :: 0 <= i < |stack| ==> next[stack[i]] == Successor(stack, i))
  }

  ghost predicate FreeListOk(s: State)
  {
    && 1 <= |s.next| <= MAX_COUNT
    && (forall i :: 0 <= i < |s.next| ==> s.next[i] < M32)
    && s.head.index < M32
    && s.head.version == s.cas % M32
    && Distinct(s.stack)
    && Chain(s.head.index, s.next, s.stack)
  }

  ghost predicate Holds(s: State, t: Tid, b: nat)
  {
    t in s.threads && b in s.threads[t].held
  }

  ghost predicate Covered(s: State, b: nat)
  {
    b in s.stack || exists t :: Holds(s, t, b)
  }

  /** Every index is free or held, never both, and held by at most one thread. */
  ghost predicate OwnershipOk(s: State)
  {
    && (forall b :: 0 <= b < |s.next| ==> Covered(s, b))
    && (forall t, b: nat :: Holds(s, t, b) ==> b < |s.next| && b !in s.stack)
    && (forall t, u, b: nat :: Holds(s, t, b) && Holds(s, u, b) ==> t == u)
  }

  ghost predicate WordOk(s: State, seen: Word, at: nat)
  {
    && at <= s.cas
    && seen.version == at % M32
    && (seen.index == NIL || seen.index < |s.next|)
    && (at == s.cas ==> seen == s.head)
  }

  ghost predicate PcOk(s: State, th: Thread)
  {
    match th.pc
    case Idle => true
    case AcqLoaded(seen, at) => WordOk(s, seen, at)
    case AcqRead(seen, at, next) =>
      && WordOk(s, seen, at)
      && next < M32
      && seen.index < |s.next|
      && (at == s.cas ==> next == s.next[seen.index])
    case AcqWon => true
    case RelLoaded(buf, seen, at) => WordOk(s, seen, at) && buf in th.held
    case RelLinked(buf, seen, at) =>
      && WordOk(s, seen, at)
      && buf in th.held
      && buf < |s.next|
      && s.next[buf] == seen.index
    case RelWon => true
  }

  ghost predicate ThreadsOk(s: State)
  {
    forall t :: t in s.threads ==> PcOk(s, s.threads[t])
  }

  /** How many swaps by other threads a thread could have lost against so far. */
  function RivalWins(s: State, th: Thread): int
  {
    (if th.pc.AcqLoaded? || th.pc.AcqRead? || th.pc.RelLoaded? || th.pc.RelLinked? then th.pc.at else s.cas) - th.wins
  }

  ghost predicate ProgressOk(s: State)
  {
    forall t :: t in s.threads ==> s.threads[t].losses <= RivalWins(s, s.threads[t])
  }

  function Decrementing(s: State): set<Tid>
  {
    set t | t in s.threads && s.threads[t].pc.AcqWon?
  }

  function Incrementing(s: State): set<Tid>
  {
    set t | t in s.threads && s.threads[t].pc.RelWon?
  }

  /** The free count corrected by the counter updates still in flight. */
  function CorrectedFree(s: State): int
  {
    |s.stack| + |Decrementing(s)| - |Incrementing(s)|
  }

  ghost predicate CounterOk(s: State)
  {
    s.available == CorrectedFree(s) % M64
  }

  ghost predicate Inv(s: State)
  {
    FreeListOk(s) && OwnershipOk(s) && ThreadsOk(s) && ProgressOk(s) && CounterOk(s)
  }

  // ----- The invariant holds initially -----

  lemma InitInv(s: State)
    requires Init(s)
    ensures Inv(s)
  {
    assert Decrementing(s) == {} && Incrementing(s) == {};
    forall b | 0 <= b < |s.next| ensures Covered(s, b) {
      assert s.stack[b] == b;
    }
  }

  // ----- Version tags decide staleness -----

  /** Within the version range an equal head word means that no swap intervened. */
  lemma EqualWordMeansUnchanged(s: State, seen: Word, at: nat)
    requires FreeListOk(s) && WordOk(s, seen, at)
    requires s.cas < at + M32
    requires s.head == seen
    ensures at == s.cas
  {
    assert s.cas % M32 == at % M32;
  }

  /** A swap that fails although it is not spurious lost against somebody's success. */
  lemma LostSwapMeansRivalWon(s: State, t: Tid)
    requires Inv(s) && t in s.threads
    requires s.threads[t].pc.AcqRead? || s.threads[t].pc.RelLinked?
    requires s.head != s.threads[t].pc.seen
    ensures s.threads[t].pc.at < s.cas
  {
    assert PcOk(s, s.threads[t]);
  }

  // ----- Bookkeeping for one-thread updates -----

  predicate OnlyPcOf(s: State, s': State, t: Tid)
  {
    && t in s.threads && s'.threads.Keys == s.threads.Keys
    && forall u :: u in s.threads && u != t ==> s'.threads[u].pc == s.threads[u].pc
  }

  lemma DecrementingFrame(s: State, s': State, t: Tid)
    requires OnlyPcOf(s, s', t)
    ensures |Decrementing(s')| - (if s'.threads[t].pc.AcqWon? then 1 else 0)
         == |Decrementing(s)| - (if s.threads[t].pc.AcqWon? then 1 else 0)
  {
    var d, d' := Decrementing(s), Decrementing(s');
    Without(d, t);
    Without(d', t);
    assert d - {t} == d' - {t};
  }

  lemma IncrementingFrame(s: State, s': State, t: Tid)
    requires OnlyPcOf(s, s', t)
    ensures |Incrementing(s')| - (if s'.threads[t].pc.RelWon? then 1 else 0)
         == |Incrementing(s)| - (if s.threads[t].pc.RelWon? then 1 else 0)
  {
    var d, d' := Incrementing(s), Incrementing(s');
    Without(d, t);
    Without(d', t);
    assert d - {t} == d' - {t};
  }

  /** Entering or leaving a counter update and changing the stack can cancel out. */
  lemma CorrectedFrame(s: State, s': State, t: Tid)
    requires OnlyPcOf(s, s', t)
    ensures CorrectedFree(s') - CorrectedFree(s) ==
      |s'.stack| - |s.stack|
      + (if s'.threads[t].pc.AcqWon? then 1 else 0) - (if s.threads[t].pc.AcqWon? then 1 else 0)
      - (if s'.threads[t].pc.RelWon? then 1 else 0) + (if s.threads[t].pc.RelWon? then 1 else 0)
  {
    DecrementingFrame(s, s', t);
    IncrementingFrame(s, s', t);
  }

  lemma Without(a: set<Tid>, t: Tid)
    ensures |a - {t}| == |a| - (if t in a then 1 else 0)
  {
    if t !in a {
      assert a - {t} == a;
    }
  }

  lemma PopChain(first: nat, next: seq<nat>, stack: seq<nat>)
    requires Chain(first, next, stack) && Distinct(stack) && stack != []
    ensures Chain(next[first], next, stack[1..]) && Distinct(stack[1..])
  {
    var rest := stack[1..];
    assert next[stack[0]] == Successor(stack, 0);
    forall i | 0 <= i < |rest| ensures next[rest[i]] == Successor(rest, i) {
      assert rest[i] == stack[i + 1] && next[stack[i + 1]] == Successor(stack, i + 1);
    }
  }

  lemma PushChain(first: nat, next: seq<nat>, stack: seq<nat>, buf: nat)
    requires Chain(first, next, stack)
    requires buf < |next| && next[buf] == first
    ensures Chain(buf, next, [buf] + stack)
  {
    var longer := [buf] + stack;
    assert longer[0] == buf && Successor(longer, 0) == first;
    forall i | 0 < i < |longer|
      ensures longer[i] < |next| && next[longer[i]] == Successor(longer, i)
    {
      var k := i - 1;
      assert longer[i] == stack[k] && stack[k] < |next|;
      assert next[stack[k]] == Successor(stack, k);
      assert i + 1 < |longer| ==> longer[i + 1] == stack[k + 1];
    }
  }

  lemma PushDistinct(stack: seq<nat>, buf: nat)
    requires Distinct(stack) && buf !in stack
    ensures Distinct([buf] + stack)
  {
  }

  /** Overwriting the cell of a buffer that is off the chain leaves the chain alone. */
  lemma ChainFrame(first: nat, next: seq<nat>, stack: seq<nat>, buf: nat, value: nat)
    requires Chain(first, next, stack) && buf < |next| && buf !in stack
    ensures Chain(first, next[buf := value], stack)
  {
    forall i | 0 <= i < |stack| ensures next[buf := value][stack[i]] == Successor(stack, i) {
      assert stack[i] in stack;
    }
  }

  // ----- Every step keeps the invariant -----

  lemma StepInArena(s: State, a: Action)
    requires Inv(s) && Enabled(s, a)
    ensures InArena(s, a)
  {
    assert PcOk(s, s.threads[a.tid]);
    if a.step.WritePayload? {
      assert Holds(s, a.tid, a.step.buf);
    }
    if a.step.LinkNode? {
      assert Holds(s, a.tid, s.threads[a.tid].pc.buf);
    }
  }

  lemma OwnershipSame(s: State, s': State)
    requires OwnershipOk(s)
    requires s'.threads.Keys == s.threads.Keys && |s'.next| == |s.next| && s'.stack == s.stack
    requires forall u :: u in s.threads ==> s'.threads[u].held == s.threads[u].held
    ensures OwnershipOk(s')
  {
    assert forall t, b :: Holds(s, t, b) <==> Holds(s', t, b);
    forall b | 0 <= b < |s'.next| ensures Covered(s', b) {
      assert Covered(s, b);
      if t :| Holds(s, t, b) {
        assert Holds(s', t, b);
      }
    }
  }

  /** The part of the invariant that a private step of `t` cannot touch. */
  lemma PrivateStep(s: State, s': State, t: Tid)
    requires Inv(s) && t in s.threads
    requires s'.threads.Keys == s.threads.Keys
    requires s'.next == s.next && s'.head == s.head && s'.cas == s.cas && s'.stack == s.stack
    requires s'.threads[t].held == s.threads[t].held
    requires forall u :: u in s.threads && u != t ==> s'.threads[u] == s.threads[u]
    ensures FreeListOk(s') && OwnershipOk(s')
    ensures PcOk(s', s'.threads[t]) ==> ThreadsOk(s')
    ensures s'.threads[t].losses <= RivalWins(s', s'.threads[t]) ==> ProgressOk(s')
  {
    OwnershipSame(s, s');
    forall u | u in s'.threads && u != t
      ensures PcOk(s', s'.threads[u]) && s'.threads[u].losses <= RivalWins(s', s'.threads[u])
    {
      assert PcOk(s, s.threads[u]);
    }
  }

  lemma HeadWordOk(s: State)
    requires FreeListOk(s)
    ensures WordOk(s, s.head, s.cas)
  {
  }

  /** Loads, give-ups and re-loads after a lost swap: only one thread's pc changes. */
  lemma LoadKeeps(s: State, t: Tid, pc: Pc, losses: nat)
    requires Inv(s) && t in s.threads
    requires !s.threads[t].pc.AcqWon? && !s.threads[t].pc.RelWon?
    requires
      || pc == Idle
      || pc == AcqLoaded(s.head, s.cas)
      || (pc.RelLoaded? && pc.buf in s.threads[t].held && pc == RelLoaded(pc.buf, s.head, s.cas))
    requires losses <= s.cas - s.threads[t].wins
    ensures Inv(SetThread(s, t, s.threads[t].(pc := pc, losses := losses)))
  {
    var s' := SetThread(s, t, s.threads[t].(pc := pc, losses := losses));
    CorrectedFrame(s, s', t);
    HeadWordOk(s);
    PrivateStep(s, s', t);
  }

  lemma ReadKeeps(s: State, t: Tid)
    requires Inv(s) && CanStep(s, Action(t, ReadNext))
    ensures Inv(Apply(s, Action(t, ReadNext)))
  {
    var s' := Apply(s, Action(t, ReadNext));
    CorrectedFrame(s, s', t);
    assert PcOk(s, s.threads[t]);
    PrivateStep(s, s', t);
  }

  lemma CountKeeps(s: State, a: Action)
    requires Inv(s) && CanStep(s, a) && (a.step.CountDown? || a.step.CountUp?)
    ensures Inv(Apply(s, a))
  {
    var s' := Apply(s, a);
    CorrectedFrame(s, s', a.tid);
    PrivateStep(s, s', a.tid);
    CounterStep(s, s', if a.step.CountDown? then -1 else 1);
  }

  lemma CounterStep(s: State, s': State, delta: int)
    requires CounterOk(s) && -1 <= delta <= 1
    requires s'.available == (s.available + M64 + delta) % M64
    requires CorrectedFree(s') == CorrectedFree(s) + delta
    ensures CounterOk(s')
  {
    hide CorrectedFree;
    WrapsAlong(CorrectedFree(s), s.available, delta);
  }

  lemma WrapsAlong(free: int, available: int, delta: int)
    requires available == free % M64
    ensures (available + M64 + delta) % M64 == (free + delta) % M64
  {
    var k := free / M64;
    assert free + delta == (available + M64 + delta) + (k - 1) * M64;
  }

  lemma TopIsOnStack(s: State, w: Word)
    requires FreeListOk(s) && w == s.head && w.index < |s.next|
    ensures s.stack != [] && w.index == s.stack[0] && w.index in s.stack
  {
    assert s.stack != [];
    assert s.stack[0] in s.stack;
  }

  /** A cell write by the holder disturbs nothing that anybody else relies on. */
  lemma CellWrite(s: State, s': State, t: Tid, buf: nat)
    requires Inv(s) && Holds(s, t, buf) && buf < |s.next|
    requires s'.threads.Keys == s.threads.Keys && s'.cas == s.cas && s'.head == s.head && s'.stack == s.stack
    requires |s'.next| == |s.next| && s'.next[buf] < M32 && s'.next == s.next[buf := s'.next[buf]]
    requires forall u :: u in s.threads && u != t ==> s'.threads[u] == s.threads[u]
    ensures FreeListOk(s')
    ensures forall u :: u in s.threads && u != t ==> PcOk(s', s'.threads[u])
    ensures s'.threads[t] == s.threads[t] && !Releasing(s.threads[t].pc, buf) ==> PcOk(s', s'.threads[t])
  {
    ChainFrame(s.head.index, s.next, s.stack, buf, s'.next[buf]);
    forall u | u in s.threads && s'.threads[u] == s.threads[u] && (u == t ==> !Releasing(s.threads[t].pc, buf))
      ensures PcOk(s', s'.threads[u])
    {
      CellWriteKeepsPc(s, s', t, buf, u);
    }
  }

  lemma CellWriteKeepsPc(s: State, s': State, t: Tid, buf: nat, u: Tid)
    requires Inv(s) && Holds(s, t, buf) && buf < |s.next| && u in s.threads
    requires s'.cas == s.cas && s'.head == s.head
    requires |s'.next| == |s.next| && s'.next == s.next[buf := s'.next[buf]]
    requires u == t ==> !Releasing(s.threads[t].pc, buf)
    ensures PcOk(s', s.threads[u])
  {
    assert PcOk(s, s.threads[u]);
    var pc := s.threads[u].pc;
    if pc.AcqRead? && pc.at == s.cas {
      TopIsOnStack(s, pc.seen);
      assert pc.seen.index != buf;
    }
    if pc.RelLinked? {
      assert Holds(s, u, pc.buf);
      assert pc.buf != buf;
    }
  }

  lemma LinkKeeps(s: State, t: Tid)
    requires Inv(s) && CanStep(s, Action(t, LinkNode))
    ensures Inv(Apply(s, Action(t, LinkNode)))
  {
    var s' := Apply(s, Action(t, LinkNode));
    var buf := s.threads[t].pc.buf;
    assert PcOk(s, s.threads[t]) && Holds(s, t, buf);
    CorrectedFrame(s, s', t);
    OwnershipSame(s, s');
    CellWrite(s, s', t, buf);
  }

  lemma WriteKeeps(s: State, a: Action)
    requires Inv(s) && CanStep(s, a) && a.step.WritePayload?
    ensures Inv(Apply(s, a))
  {
    var s' := Apply(s, a);
    assert Holds(s, a.tid, a.step.buf);
    OwnershipSame(s, s');
    CellWrite(s, s', a.tid, a.step.buf);
    assert Decrementing(s') == Decrementing(s) && Incrementing(s') == Incrementing(s);
  }

  lemma HandOverOwnership(s: State, a: Action)
    requires Inv(s) && CanStep(s, a) && a.step.HandOver?
    ensures OwnershipOk(Apply(s, a))
  {
    var s' := Apply(s, a);
    var buf, to := a.step.buf, a.step.to;
    assert Holds(s, a.tid, buf);
    assert forall u, b :: b != buf ==> (Holds(s', u, b) <==> Holds(s, u, b));
    assert forall u :: Holds(s', u, buf) ==> u == to || (u != a.tid && Holds(s, u, buf));
    forall b | 0 <= b < |s'.next| ensures Covered(s', b) {
      assert Covered(s, b);
      if b == buf {
        assert Holds(s', to, b);
      } else if t :| Holds(s, t, b) {
        assert Holds(s', t, b);
      }
    }
  }

  lemma HandOverKeeps(s: State, a: Action)
    requires Inv(s) && CanStep(s, a) && a.step.HandOver?
    ensures Inv(Apply(s, a))
  {
    var s' := Apply(s, a);
    HandOverOwnership(s, a);
    assert s'.threads.Keys == s.threads.Keys;
    forall u | u in s.threads
      ensures s'.threads[u].pc == s.threads[u].pc && s'.threads[u].losses == s.threads[u].losses
      ensures s'.threads[u].wins == s.threads[u].wins
      ensures PcOk(s', s'.threads[u])
    {
      PcOkAfterHandOver(s, a, u);
    }
    assert Decrementing(s') == Decrementing(s) && Incrementing(s') == Incrementing(s);
    assert ProgressOk(s');
  }

  lemma PcOkAfterHandOver(s: State, a: Action, u: Tid)
    requires Inv(s) && CanStep(s, a) && a.step.HandOver? && u in s.threads
    ensures var s' := Apply(s, a);
      && s'.threads[u].pc == s.threads[u].pc
      && s'.threads[u].losses == s.threads[u].losses
      && s'.threads[u].wins == s.threads[u].wins
      && PcOk(s', s'.threads[u])
  {
    var s' := Apply(s, a);
    assert PcOk(s, s.threads[u]);
    assert s'.next == s.next && s'.head == s.head && s'.cas == s.cas;
  }

  /** What a winning acquire found: the top of the stack, and that top's true successor. */
  lemma AcquireInstallsSuccessor(s: State, t: Tid)
    requires Inv(s) && Enabled(s, Action(t, SwapForAcquire(false)))
    requires WithinVersionRange(s, Action(t, SwapForAcquire(false)))
    requires Wins(s, s.threads[t].pc.seen, false)
    ensures s.stack != []
    ensures s.threads[t].pc.seen.index == s.stack[0]
    ensures s.threads[t].pc.next == Successor(s.stack, 0)
  {
    var pc := s.threads[t].pc;
    assert PcOk(s, s.threads[t]);
    EqualWordMeansUnchanged(s, pc.seen, pc.at);
    TopIsOnStack(s, pc.seen);
    assert s.next[s.stack[0]] == Successor(s.stack, 0);
  }

  /** A success by `t` makes every other thread's knowledge stale, never wrong. */
  lemma OthersAfterWin(s: State, s': State, t: Tid)
    requires Inv(s) && t in s.threads && s'.threads.Keys == s.threads.Keys
    requires s'.next == s.next && s'.cas == s.cas + 1
    requires forall u :: u in s.threads && u != t ==> s'.threads[u] == s.threads[u]
    ensures PcOk(s', s'.threads[t]) ==> ThreadsOk(s')
    ensures s'.threads[t].losses <= RivalWins(s', s'.threads[t]) ==> ProgressOk(s')
  {
    forall u | u in s.threads && u != t
      ensures PcOk(s', s'.threads[u]) && s'.threads[u].losses <= RivalWins(s', s'.threads[u])
    {
      assert PcOk(s, s.threads[u]);
    }
  }

  lemma PopOwnership(s: State, s': State, t: Tid)
    requires OwnershipOk(s) && s.stack != [] && Distinct(s.stack) && t in s.threads
    requires s.stack[0] < |s.next|
    requires s'.threads.Keys == s.threads.Keys && s'.next == s.next && s'.stack == s.stack[1..]
    requires forall u :: u in s.threads && u != t ==> s'.threads[u].held == s.threads[u].held
    requires s'.threads[t].held == s.threads[t].held + {s.stack[0]}
    ensures OwnershipOk(s')
  {
    var top := s.stack[0];
    assert s.stack == [top] + s'.stack;
    assert top in s.stack && top !in s'.stack;
    assert forall u, b :: b != top ==> (Holds(s', u, b) <==> Holds(s, u, b));
    assert forall u :: Holds(s', u, top) ==> u == t || Holds(s, u, top);
    forall b | 0 <= b < |s'.next| ensures Covered(s', b) {
      assert Covered(s, b);
      if b == top {
        assert Holds(s', t, b);
      } else if u :| Holds(s, u, b) {
        assert Holds(s', u, b);
      }
    }
  }

  lemma PushOwnership(s: State, s': State, t: Tid, buf: nat)
    requires OwnershipOk(s) && Holds(s, t, buf)
    requires s'.threads.Keys == s.threads.Keys && s'.next == s.next && s'.stack == [buf] + s.stack
    requires forall u :: u in s.threads && u != t ==> s'.threads[u].held == s.threads[u].held
    requires s'.threads[t].held == s.threads[t].held - {buf}
    ensures OwnershipOk(s')
  {
    assert forall u, b :: b != buf ==> (Holds(s', u, b) <==> Holds(s, u, b));
    assert forall u :: Holds(s', u, buf) ==> u != t && Holds(s, u, buf);
    forall b | 0 <= b < |s'.next| ensures Covered(s', b) {
      assert Covered(s, b);
      if b == buf || b in s.stack {
        assert b in s'.stack;
      } else if u :| Holds(s, u, b) {
        assert Holds(s', u, b);
      }
    }
  }

  lemma NextVersion(n: nat)
    ensures (n % M32 + 1) % M32 == (n + 1) % M32
  {
  }

  ghost predicate WinningAcquire(s: State, t: Tid)
  {
    && Inv(s) && t in s.threads && s.threads[t].pc.AcqRead? && s.threads[t].pc.next < M32
    && WithinVersionRange(s, Action(t, SwapForAcquire(false)))
    && Wins(s, s.threads[t].pc.seen, false)
  }

  lemma WinningAcquireFreeList(s: State, t: Tid)
    requires WinningAcquire(s, t)
    ensures FreeListOk(SwapAcquire(s, t, false))
    ensures OwnershipOk(SwapAcquire(s, t, false))
  {
    var s' := SwapAcquire(s, t, false);
    AcquireInstallsSuccessor(s, t);
    assert s.next[s.stack[0]] == Successor(s.stack, 0);
    NextVersion(s.cas);
    PopChain(s.head.index, s.next, s.stack);
    PopOwnership(s, s', t);
  }

  lemma WinningAcquireKeeps(s: State, t: Tid)
    requires WinningAcquire(s, t)
    ensures Inv(SwapAcquire(s, t, false))
  {
    var s' := SwapAcquire(s, t, false);
    var th := s.threads[t];
    assert PcOk(s, th) && th.losses <= RivalWins(s, th);
    WinningAcquireFreeList(s, t);
    AcquireInstallsSuccessor(s, t);
    EqualWordMeansUnchanged(s, th.pc.seen, th.pc.at);
    OthersAfterWin(s, s', t);
    CorrectedFrame(s, s', t);
  }

  ghost predicate WinningRelease(s: State, t: Tid)
  {
    && Inv(s) && t in s.threads && s.threads[t].pc.RelLinked? && s.threads[t].pc.buf < M32
    && WithinVersionRange(s, Action(t, SwapForRelease(false)))
    && Wins(s, s.threads[t].pc.seen, false)
  }

  lemma WinningReleaseFreeList(s: State, t: Tid)
    requires WinningRelease(s, t)
    ensures FreeListOk(SwapRelease(s, t, false))
    ensures OwnershipOk(SwapRelease(s, t, false))
  {
    var s' := SwapRelease(s, t, false);
    var pc := s.threads[t].pc;
    assert PcOk(s, s.threads[t]);
    assert Holds(s, t, pc.buf);
    NextVersion(s.cas);
    PushChain(s.head.index, s.next, s.stack, pc.buf);
    PushDistinct(s.stack, pc.buf);
    PushOwnership(s, s', t, pc.buf);
  }

  lemma WinningReleaseKeeps(s: State, t: Tid)
    requires WinningRelease(s, t)
    ensures Inv(SwapRelease(s, t, false))
  {
    var s' := SwapRelease(s, t, false);
    var th := s.threads[t];
    assert PcOk(s, th) && th.losses <= RivalWins(s, th);
    WinningReleaseFreeList(s, t);
    EqualWordMeansUnchanged(s, th.pc.seen, th.pc.at);
    OthersAfterWin(s, s', t);
    CorrectedFrame(s, s', t);
  }

  lemma LosingSwapKeeps(s: State, a: Action)
    requires Inv(s) && CanStep(s, a) && (a.step.SwapForAcquire? || a.step.SwapForRelease?)
    requires !Wins(s, s.threads[a.tid].pc.seen, a.step.spurious)
    ensures Inv(Apply(s, a))
  {
    var th := s.threads[a.tid];
    assert PcOk(s, th) && th.losses <= RivalWins(s, th);
    var pc := if a.step.SwapForAcquire? then AcqLoaded(s.head, s.cas) else RelLoaded(th.pc.buf, s.head, s.cas);
    LoadKeeps(s, a.tid, pc, LossesAfter(s, th, th.pc.seen));
  }

  /** One step of any thread, whatever it is, keeps the invariant. */
  lemma StepKeepsInv(s: State, a: Action)
    requires Inv(s) && Enabled(s, a) && WithinVersionRange(s, a)
    ensures InArena(s, a) && Inv(Apply(s, a))
  {
    StepInArena(s, a);
    var th := s.threads[a.tid];
    assert PcOk(s, th) && th.losses <= RivalWins(s, th);
    match a.step
    case LoadForAcquire => LoadKeeps(s, a.tid, AcqLoaded(s.head, s.cas), th.losses);
    case GiveUp => LoadKeeps(s, a.tid, Idle, th.losses);
    case ReadNext => ReadKeeps(s, a.tid);
    case SwapForAcquire(spurious) =>
      if Wins(s, th.pc.seen, spurious) {
        assert a == Action(a.tid, SwapForAcquire(false));
        WinningAcquireKeeps(s, a.tid);
      } else {
        LosingSwapKeeps(s, a);
      }
    case CountDown => CountKeeps(s, a);
    case LoadForRelease(buf) => LoadKeeps(s, a.tid, RelLoaded(buf, s.head, s.cas), th.losses);
    case LinkNode => LinkKeeps(s, a.tid);
    case SwapForRelease(spurious) =>
      if Wins(s, th.pc.seen, spurious) {
        assert a == Action(a.tid, SwapForRelease(false));
        WinningReleaseKeeps(s, a.tid);
      } else {
        LosingSwapKeeps(s, a);
      }
    case CountUp => CountKeeps(s, a);
    case WritePayload(_, _) => WriteKeeps(s, a);
    case HandOver(_, _) => HandOverKeeps(s, a);
  }

  // ----- Main theorems, over whole runs -----

  lemma {:induction false} RunKeepsInv(s: State, run: seq<Action>)
    requires Inv(s) && Scheduled(s, run)
    ensures Runs(s, run) && Inv(Exec(s, run))
    decreases |run|
  {
    if run != [] {
      StepKeepsInv(s, run[0]);
      RunKeepsInv(Apply(s, run[0]), run[1..]);
    }
  }

  /** In every interleaving: all accesses stay in the arena, the chain from the head is the
      duplicate-free stack and ends at the sentinel, and each index is either on the chain or
      held by exactly one thread. */
  lemma NoBufferLostOrShared(s: State, run: seq<Action>)
    requires Init(s) && Scheduled(s, run)
    ensures Runs(s, run)
    ensures var e := Exec(s, run);
      && Distinct(e.stack)
      && Chain(e.head.index, e.next, e.stack)
      && (forall b :: 0 <= b < |e.next| ==>
            (b in e.stack <==> !exists t :: Holds(e, t, b)))
      && (forall t, u, b: nat :: Holds(e, t, b) && Holds(e, u, b) ==> t == u)
  {
    InitInv(s);
    RunKeepsInv(s, run);
    var e := Exec(s, run);
    forall b | 0 <= b < |e.next|
      ensures b in e.stack <==> !exists t :: Holds(e, t, b)
    {
      assert Covered(e, b);
    }
  }

  /** Lock-freedom by accounting: a thread never loses more swaps than the others have won. */
  lemma LossesPaidByRivals(s: State, run: seq<Action>, t: Tid)
    requires Init(s) && Scheduled(s, run)
    ensures Runs(s, run)
    ensures var e := Exec(s, run);
      t in e.threads ==> e.threads[t].losses + e.threads[t].wins <= e.cas
  {
    InitInv(s);
    RunKeepsInv(s, run);
    var e := Exec(s, run);
    if t in e.threads {
      assert PcOk(e, e.threads[t]);
    }
  }

  /** `available()` is the free count corrected by the updates in flight, modulo 2^64; it is
      exact whenever no call is between its swap and its counter update. */
  lemma AvailableMeaning(s: State, run: seq<Action>)
    requires Init(s) && Scheduled(s, run)
    ensures Runs(s, run)
    ensures var e := Exec(s, run);
      && e.available == CorrectedFree(e) % M64
      && (Decrementing(e) == {} && Incrementing(e) == {} ==> e.available == |e.stack|)
  {
    InitInv(s);
    RunKeepsInv(s, run);
    ExactWhenQuiet(Exec(s, run));
  }

  lemma ExactWhenQuiet(e: State)
    requires Inv(e)
    ensures Decrementing(e) == {} && Incrementing(e) == {} ==> e.available == |e.stack|
  {
    DistinctFits(e.stack, |e.next|);
  }

  // ----- Refinement of an abstract LIFO allocator -----

  /** What the environment sees: the free stack and who holds what. */
  datatype Pool = Pool(free: seq<nat>, holds: map<Tid, set<nat>>)

  function View(s: State): Pool
  {
    Pool(s.stack, map t | t in s.threads :: s.threads[t].held)
  }

  ghost predicate Pops(p: Pool, p': Pool, t: Tid)
  {
    && t in p.holds && p.free != []
    && p' == Pool(p.free[1..], p.holds[t := p.holds[t] + {p.free[0]}])
  }

  ghost predicate Pushes(p: Pool, p': Pool, t: Tid)
  {
    && t in p.holds
    && exists b :: b in p.holds[t] && p' == Pool([b] + p.free, p.holds[t := p.holds[t] - {b}])
  }

  ghost predicate Moves(p: Pool, p': Pool, t: Tid)
  {
    && t in p.holds
    && exists b, u :: b in p.holds[t] && u in p.holds && u != t &&
         p' == Pool(p.free, p.holds[t := p.holds[t] - {b}][u := p.holds[u] + {b}])
  }

  predicate IsSwap(step: Step) { step.SwapForAcquire? || step.SwapForRelease? }

  lemma AcquireRefines(s: State, t: Tid)
    requires WinningAcquire(s, t)
    ensures Pops(View(s), View(SwapAcquire(s, t, false)), t)
  {
    var p, p' := View(s), View(SwapAcquire(s, t, false));
    AcquireInstallsSuccessor(s, t);
    assert p'.holds == p.holds[t := p.holds[t] + {p.free[0]}];
  }

  lemma ReleaseRefines(s: State, t: Tid)
    requires WinningRelease(s, t)
    ensures Pushes(View(s), View(SwapRelease(s, t, false)), t)
  {
    var p, p' := View(s), View(SwapRelease(s, t, false));
    var b := s.threads[t].pc.buf;
    assert PcOk(s, s.threads[t]);
    assert p'.holds == p.holds[t := p.holds[t] - {b}];
    assert p' == Pool([b] + p.free, p.holds[t := p.holds[t] - {b}]);
  }

  lemma HandOverRefines(s: State, a: Action)
    requires CanStep(s, a) && a.step.HandOver?
    ensures Moves(View(s), View(Apply(s, a)), a.tid)
  {
    var p, p' := View(s), View(Apply(s, a));
    var t, b, u := a.tid, a.step.buf, a.step.to;
    assert p'.holds == p.holds[t := p.holds[t] - {b}][u := p.holds[u] + {b}];
  }

  lemma QuietStep(s: State, a: Action)
    requires CanStep(s, a) && !a.step.HandOver?
    requires IsSwap(a.step) ==> !Wins(s, s.threads[a.tid].pc.seen, a.step.spurious)
    ensures View(Apply(s, a)) == View(s)
  {
    assert View(Apply(s, a)).holds == View(s).holds;
  }

  /** Each step is a pop, a push, a hand-over or invisible; and it is a pop or a push exactly
      when its swap succeeds. */
  lemma StepRefinesStack(s: State, a: Action)
    requires Inv(s) && Enabled(s, a) && WithinVersionRange(s, a)
    ensures InArena(s, a)
    ensures var p, p' := View(s), View(Apply(s, a));
      if IsSwap(a.step) && Wins(s, s.threads[a.tid].pc.seen, a.step.spurious) then
        (if a.step.SwapForAcquire? then Pops(p, p', a.tid) else Pushes(p, p', a.tid))
      else if a.step.HandOver? then
        Moves(p, p', a.tid)
      else
        p' == p
  {
    StepInArena(s, a);
    if IsSwap(a.step) && Wins(s, s.threads[a.tid].pc.seen, a.step.spurious) {
      if a.step.SwapForAcquire? {
        AcquireRefines(s, a.tid);
      } else {
        ReleaseRefines(s, a.tid);
      }
    } else if a.step.HandOver? {
      HandOverRefines(s, a);
    } else {
      QuietStep(s, a);
    }
  }
}
