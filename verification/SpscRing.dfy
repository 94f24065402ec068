/**
 The single-producer single-consumer ring: wrapping 32-bit indices and cached far indices.

 The class holds exactly the fields of the source and its four methods.  An acquire load of the
 other side's index is a parameter: the memory model may return any value published since the
 one this side has cached.  `System` pairs the wrapped fields with unbounded counters, and the
 interleaving theorem is about every schedule of the two threads.
 */
module SpscRing {
  import opened Arith

  /** The capacities the template accepts: powers of two that fit a `uint32_t`. */
  ghost predicate IsCapacity(n: nat)
  {
    exists k: nat :: k < 32 && n == Pow2(k)
  }

  /** `(a - b)` in `uint32_t` arithmetic. */
  function Minus(a: nat, b: nat): nat
    requires a < M32 && b < M32
  {
    (a + M32 - b) % M32
  }

  function Plus1(a: nat): nat { (a + 1) % M32 }

  // ----- The fields, as a value -----

  datatype Ring<T> = Ring(w: nat, rCache: nat, r: nat, wCache: nat, data: seq<T>)

  ghost predicate Shaped<T>(g: Ring<T>)
  {
    g.w < M32 && g.rCache < M32 && g.r < M32 && g.wCache < M32 && IsCapacity(|g.data|) && 0 < |g.data| < M32
  }

  /** `alloc`: the slot index, or none when full; `loaded` is what the acquire load of `r_` returns. */
  ghost function AllocStep<T>(g: Ring<T>, loaded: nat): (Ring<T>, Slot)
    requires Shaped(g) && loaded < M32
  {
    if Minus(g.w, g.rCache) < |g.data| then (g, At(g.w % |g.data|))
    else if Minus(g.w, loaded) < |g.data| then (g.(rCache := loaded), At(g.w % |g.data|))
    else (g.(rCache := loaded), Nothing)
  }

  function CommitStep<T>(g: Ring<T>): Ring<T> { g.(w := Plus1(g.w)) }

  /** `peek`: the slot index, or none when empty; `loaded` is what the acquire load of `w_` returns. */
  ghost function PeekStep<T>(g: Ring<T>, loaded: nat): (Ring<T>, Slot)
    requires Shaped(g) && loaded < M32
  {
    if g.r != g.wCache then (g, At(g.r % |g.data|))
    else if g.r != loaded then (g.(wCache := loaded), At(g.r % |g.data|))
    else (g.(wCache := loaded), Nothing)
  }

  function ReleaseStep<T>(g: Ring<T>): Ring<T> { g.(r := Plus1(g.r)) }

  datatype Slot = Nothing | At(index: nat)

  // ----- The class -----

  class Spsc<T> {
    var w: nat
    var rCache: nat
    var r: nat
    var wCache: nat
    const data: array<T>

    ghost function View(): Ring<T>
      reads this, data
    {
      Ring(w, rCache, r, wCache, data[..])
    }

    ghost predicate Valid()
      reads this, data
    {
      Shaped(View())
    }

    constructor (data: array<T>)
      requires IsCapacity(data.Length)
      ensures Valid() && this.data == data && View() == Ring(0, 0, 0, 0, data[..])
    {
      CapacityFits(data.Length);
      this.data := data;
      w, rCache, r, wCache := 0, 0, 0, 0;
    }

    method Alloc(loadedR: nat) returns (slot: Slot)
      requires Valid() && loadedR < M32
      modifies this`rCache
      ensures Valid() && (View(), slot) == AllocStep(old(View()), loadedR)
    {
      var n := data.Length;
      if Minus(w, rCache) >= n {
        rCache := loadedR;
        if Minus(w, rCache) >= n {
          return Nothing;
        }
      }
      return At(w % n);
    }

    method Commit()
      requires Valid()
      modifies this`w
      ensures Valid() && View() == CommitStep(old(View()))
    {
      w := Plus1(w);
    }

    method Peek(loadedW: nat) returns (slot: Slot)
      requires Valid() && loadedW < M32
      modifies this`wCache
      ensures Valid() && (View(), slot) == PeekStep(old(View()), loadedW)
    {
      if r == wCache {
        wCache := loadedW;
        if r == wCache {
          return Nothing;
        }
      }
      return At(r % data.Length);
    }

    method Release()
      requires Valid()
      modifies this`r
      ensures Valid() && View() == ReleaseStep(old(View()))
    {
      r := Plus1(r);
    }
  }

  // ----- Two threads -----

  /** The ring with both threads' positions and the history of the exchange.  `reserved` is the
      slot the producer got and has not committed; `peeked` the slot the consumer looks at.
      `seenR`/`seenW` are the values of the far index each side has seen, unwrapped. */
  datatype System<T> = System(
    ring: Ring<T>,
    reserved: Slot,
    peeked: Slot,
    seenR: nat,
    seenW: nat,
    committed: seq<T>,
    consumed: seq<T>)

  /** One step of either thread.  `loaded` picks which published index an acquire load returns,
      counted without wrap-around. */
  datatype Step<T> =
    | TryAlloc(loaded: nat)
    | Write(item: T)
    | DoCommit
    | TryPeek(loaded: nat)
    | Consume

  ghost predicate Enabled<T>(s: System<T>, step: Step<T>)
  {
    match step
    case TryAlloc(loaded) => s.seenR <= loaded <= |s.consumed|
    case Write(_) => s.reserved.At? && s.reserved.index < |s.ring.data|
    case DoCommit => s.reserved.At? && s.reserved.index < |s.ring.data|
    case TryPeek(loaded) => s.seenW <= loaded <= |s.committed|
    case Consume => s.peeked.At? && s.peeked.index < |s.ring.data|
  }

  /** Whether `alloc`/`peek` performs its acquire load in this state. */
  ghost predicate LoadsR<T>(g: Ring<T>)
    requires Shaped(g)
  {
    Minus(g.w, g.rCache) >= |g.data|
  }

  predicate LoadsW<T>(g: Ring<T>) { g.r == g.wCache }

  ghost function Apply<T>(s: System<T>, step: Step<T>): System<T>
    requires Shaped(s.ring) && Enabled(s, step)
  {
    match step
    case TryAlloc(loaded) =>
      var (ring, slot) := AllocStep(s.ring, loaded % M32);
      s.(ring := ring, reserved := slot, seenR := if LoadsR(s.ring) then loaded else s.seenR)
    case Write(item) =>
      s.(ring := s.ring.(data := s.ring.data[s.reserved.index := item]))
    case DoCommit =>
      s.(ring := CommitStep(s.ring), reserved := Nothing, committed := s.committed + [s.ring.data[s.reserved.index]])
    case TryPeek(loaded) =>
      var (ring, slot) := PeekStep(s.ring, loaded % M32);
      s.(ring := ring, peeked := slot, seenW := if LoadsW(s.ring) then loaded else s.seenW)
    case Consume =>
      s.(ring := ReleaseStep(s.ring), peeked := Nothing, consumed := s.consumed + [s.ring.data[s.peeked.index]])
  }

  ghost predicate Init<T>(s: System<T>)
  {
    && IsCapacity(|s.ring.data|)
    && s.ring == Ring(0, 0, 0, 0, s.ring.data)
    && s.reserved == Nothing && s.peeked == Nothing
    && s.seenR == 0 && s.seenW == 0 && s.committed == [] && s.consumed == []
  }

  /** Slot of the `i`-th item. */
  function SlotOf(i: nat, n: nat): nat
    requires n > 0
  {
    i % n
  }

  ghost predicate Inv<T>(s: System<T>)
  {
    var n, w, r := |s.ring.data|, |s.committed|, |s.consumed|;
    && Shaped(s.ring)
    && s.ring.w == w % M32 && s.ring.r == r % M32
    && s.ring.rCache == s.seenR % M32 && s.ring.wCache == s.seenW % M32
    && s.seenR <= r <= s.seenW <= w <= s.seenR + n
    && s.consumed == s.committed[..r]
    && (forall i :: r <= i < w ==> s.ring.data[SlotOf(i, n)] == s.committed[i])
    && (s.reserved.At? ==> s.reserved.index == SlotOf(w, n) && w < s.seenR + n)
    && (s.peeked.At? ==> s.peeked.index == SlotOf(r, n) && r < s.seenW)
  }

  // ----- Arithmetic of wrapped indices -----

  /** Masking a wrapped index gives the slot of the unwrapped one. */
  lemma WrappedSlot(i: nat, n: nat)
    requires IsCapacity(n)
    ensures n > 0 && (i % M32) % n == SlotOf(i, n)
  {
    var k: nat :| k < 32 && n == Pow2(k);
    Pow2Add(32 - k, k);
    Pow2Known();
    ModMod(i, Pow2(32 - k), n);
  }

  lemma CapacityFits(n: nat)
    requires IsCapacity(n)
    ensures 0 < n < M32
  {
    var k: nat :| k < 32 && n == Pow2(k);
    Pow2Add(32 - k, k);
    Pow2Known();
    BigMultiple(Pow2(32 - k) - 1, n);
    assert Pow2(32 - k) == 2 * Pow2(31 - k);
    Distribute(Pow2(32 - k) - 1, 1, n);
  }

  /** A wrapped difference is the true difference when that is below 2^32. */
  lemma WrappedMinus(a: nat, b: nat)
    requires b <= a < b + M32
    ensures Minus(a % M32, b % M32) == a - b
  {
    var d := a - b;
    assert (a % M32 + M32 - b % M32) % M32 == d;
  }

  lemma WrappedEqual(a: nat, b: nat)
    requires b <= a < b + M32
    ensures a % M32 == b % M32 <==> a == b
  {
  }

  lemma WrappedSucc(a: nat)
    ensures Plus1(a % M32) == (a + 1) % M32
  {
  }

  /** Different items of one window have different slots. */
  lemma SlotsDiffer(i: nat, j: nat, n: nat)
    requires i < j < i + n
    ensures SlotOf(i, n) != SlotOf(j, n)
  {
    WindowDistinct(i, j, n);
  }

  // ----- Every step of either thread keeps the invariant -----

  lemma InitInv<T>(s: System<T>)
    requires Init(s)
    ensures Inv(s)
  {
    CapacityFits(|s.ring.data|);
  }

  lemma AllocKeeps<T>(s: System<T>, loaded: nat)
    requires Inv(s) && Enabled(s, TryAlloc(loaded))
    ensures Inv(Apply(s, TryAlloc(loaded)))
  {
    var w := |s.committed|;
    WrappedSlot(w, |s.ring.data|);
    WrappedMinus(w, s.seenR);
    WrappedMinus(w, loaded);
  }

  lemma WriteKeeps<T>(s: System<T>, item: T)
    requires Inv(s) && Enabled(s, Write(item))
    ensures Inv(Apply(s, Write(item)))
  {
    var n, w, r := |s.ring.data|, |s.committed|, |s.consumed|;
    forall i | r <= i < w ensures SlotOf(i, n) != s.reserved.index {
      SlotsDiffer(i, w, n);
    }
  }

  lemma CommitKeeps<T>(s: System<T>)
    requires Inv(s) && Enabled(s, DoCommit)
    ensures Inv(Apply(s, DoCommit))
  {
    WrappedSucc(|s.committed|);
    var s' := Apply(s, DoCommit);
    assert s'.committed[..|s.consumed|] == s.committed[..|s.consumed|];
  }

  lemma PeekKeeps<T>(s: System<T>, loaded: nat)
    requires Inv(s) && Enabled(s, TryPeek(loaded))
    ensures Inv(Apply(s, TryPeek(loaded)))
  {
    var r := |s.consumed|;
    WrappedSlot(r, |s.ring.data|);
    WrappedEqual(s.seenW, r);
    WrappedEqual(loaded, r);
  }

  lemma ConsumeKeeps<T>(s: System<T>)
    requires Inv(s) && Enabled(s, Consume)
    ensures Inv(Apply(s, Consume))
    ensures Apply(s, Consume).consumed == s.committed[..|s.consumed| + 1]
  {
    WrappedSucc(|s.consumed|);
    var r := |s.consumed|;
    assert s.ring.data[SlotOf(r, |s.ring.data|)] == s.committed[r];
    assert s.committed[..r + 1] == s.committed[..r] + [s.committed[r]];
  }

  /** Asking again before committing or releasing gives the same slot. */
  lemma AskingAgain<T>(s: System<T>, loaded: nat)
    requires Inv(s)
    ensures Enabled(s, TryAlloc(loaded)) && s.reserved.At? ==> Apply(s, TryAlloc(loaded)) == s
    ensures Enabled(s, TryPeek(loaded)) && s.peeked.At? ==> Apply(s, TryPeek(loaded)) == s
  {
    var w, r := |s.committed|, |s.consumed|;
    WrappedSlot(w, |s.ring.data|);
    WrappedMinus(w, s.seenR);
    WrappedSlot(r, |s.ring.data|);
    WrappedEqual(s.seenW, r);
  }

  lemma StepKeepsInv<T>(s: System<T>, step: Step<T>)
    requires Inv(s) && Enabled(s, step)
    ensures Inv(Apply(s, step))
  {
    match step
    case TryAlloc(loaded) => AllocKeeps(s, loaded);
    case Write(item) => WriteKeeps(s, item);
    case DoCommit => CommitKeeps(s);
    case TryPeek(loaded) => PeekKeeps(s, loaded);
    case Consume => ConsumeKeeps(s);
  }

  // ----- Main theorems, over every interleaving -----

  /** A schedule of both threads. */
  ghost predicate Runs<T>(s: System<T>, run: seq<Step<T>>)
    decreases |run|
  {
    run == [] || (Shaped(s.ring) && Enabled(s, run[0]) && Runs(Apply(s, run[0]), run[1..]))
  }

  ghost function Exec<T>(s: System<T>, run: seq<Step<T>>): System<T>
    requires Runs(s, run)
    decreases |run|
  {
    if run == [] then s else Exec(Apply(s, run[0]), run[1..])
  }

  lemma {:induction false} RunKeepsInv<T>(s: System<T>, run: seq<Step<T>>)
    requires Inv(s) && Runs(s, run)
    ensures Inv(Exec(s, run))
    decreases |run|
  {
    if run != [] {
      StepKeepsInv(s, run[0]);
      RunKeepsInv(Apply(s, run[0]), run[1..]);
    }
  }

  /** However the threads interleave and whatever the loads return: the consumer has seen a prefix
      of what was committed, in order, and the ring never holds more than its capacity. */
  lemma ConsumerSeesCommitted<T>(s: System<T>, run: seq<Step<T>>)
    requires Init(s) && Runs(s, run)
    ensures var e := Exec(s, run);
      && e.consumed <= e.committed
      && |e.committed| - |e.consumed| <= |s.ring.data|
  {
    InitInv(s);
    RunKeepsInv(s, run);
    CapacityFixed(s, run);
  }

  lemma {:induction false} CapacityFixed<T>(s: System<T>, run: seq<Step<T>>)
    requires Runs(s, run)
    ensures |Exec(s, run).ring.data| == |s.ring.data|
    decreases |run|
  {
    if run != [] {
      CapacityFixed(Apply(s, run[0]), run[1..]);
    }
  }

  /** The producer's slot is no slot that is committed and not yet released; so writing it never
      races with the consumer's reads. */
  lemma ReservedSlotIsFree<T>(s: System<T>, run: seq<Step<T>>)
    requires Init(s) && Runs(s, run)
    ensures var e := Exec(s, run);
      e.reserved.At? ==>
        && e.reserved != e.peeked
        && |e.ring.data| > 0
        && forall i :: |e.consumed| <= i < |e.committed| ==> e.reserved.index != SlotOf(i, |e.ring.data|)
  {
    InitInv(s);
    RunKeepsInv(s, run);
    var e := Exec(s, run);
    if e.reserved.At? {
      forall i | |e.consumed| <= i < |e.committed|
        ensures e.reserved.index != SlotOf(i, |e.ring.data|)
      {
        SlotsDiffer(i, |e.committed|, |e.ring.data|);
      }
      if e.peeked.At? {
        SlotsDiffer(|e.consumed|, |e.committed|, |e.ring.data|);
      }
    }
  }

  /** What a refusal means: the ring was full for the release count the producer saw, and empty for
      the commit count the consumer saw; with an up-to-date load the answers are exact. */
  lemma RefusalsAreExact<T>(s: System<T>, loaded: nat)
    requires Inv(s)
    ensures Enabled(s, TryAlloc(loaded)) && loaded == |s.consumed| ==>
      (Apply(s, TryAlloc(loaded)).reserved.Nothing? <==> |s.committed| - |s.consumed| == |s.ring.data|)
    ensures Enabled(s, TryPeek(loaded)) && loaded == |s.committed| ==>
      (Apply(s, TryPeek(loaded)).peeked.Nothing? <==> |s.committed| == |s.consumed|)
  {
    var w, r := |s.committed|, |s.consumed|;
    if Enabled(s, TryAlloc(loaded)) && loaded == r {
      WrappedMinus(w, s.seenR);
      WrappedMinus(w, loaded);
    }
    if Enabled(s, TryPeek(loaded)) && loaded == w {
      WrappedEqual(s.seenW, r);
      WrappedEqual(loaded, r);
    }
  }
}
