/**
 Laws of dispatch, for every table, batch and script.
 */
module EventLoopLaws {
  import opened EventLoop
  import opened Wrappers

  /** The pollables dispatched, in order. */
  function Dispatches(trace: seq<Event>): seq<nat>
  {
    if trace == [] then []
    else
      var init, last := Dispatches(trace[..|trace| - 1]), trace[|trace| - 1];
      if last.Dispatched? then init + [last.p] else init
  }

  /** How often `p` was removed. */
  function Removals(trace: seq<Event>, p: nat): nat
  {
    if trace == [] then 0
    else Removals(trace[..|trace| - 1], p) + (if trace[|trace| - 1] == Did(Remove(p)) then 1 else 0)
  }

  predicate Removed(trace: seq<Event>, p: nat)
  {
    Did(Remove(p)) in trace
  }

  /** A pollable that was removed is not dispatched again. */
  ghost predicate NeverAgain(trace: seq<Event>)
  {
    forall a, b, p :: 0 <= a < b < |trace| && trace[a] == Did(Remove(p)) ==> trace[b] != Dispatched(p)
  }

  /** The slots the loop is going to look at: the table, or the batch. */
  function Slots(r: Run): seq<Entry>
  {
    if r.busy then r.sessions else r.events
  }

  /** How often `p` occurs among the first `n` entries. */
  function Count(s: seq<Entry>, p: nat, n: nat): nat
    requires n <= |s|
  {
    if n == 0 then 0 else Count(s, p, n - 1) + (if s[n - 1] == Some(p) then 1 else 0)
  }

  /** No pollable occurs twice. */
  ghost predicate Unique(s: seq<Entry>)
  {
    forall i, j :: 0 <= i < j < |s| && s[i].Some? ==> s[i] != s[j]
  }

  lemma RemovalsSnoc(trace: seq<Event>, e: Event, p: nat)
    ensures Removals(trace + [e], p) == Removals(trace, p) + (if e == Did(Remove(p)) then 1 else 0)
  {
    assert (trace + [e])[..|trace|] == trace;
  }

  lemma {:induction false} RemovedMeans(trace: seq<Event>, p: nat)
    ensures Removed(trace, p) <==> Removals(trace, p) > 0
    decreases |trace|
  {
    if trace != [] {
      var init := trace[..|trace| - 1];
      RemovedMeans(init, p);
      assert trace == init + [trace[|trace| - 1]];
    }
  }

  // ----- The first entry that is left -----

  lemma {:induction false} CountUpTo(s: seq<Entry>, p: nat, i: nat, n: nat)
    requires i <= n <= |s|
    ensures Count(s, p, i) <= Count(s, p, n)
    decreases n
  {
    if i < n {
      CountUpTo(s, p, i, n - 1);
    }
  }

  /** The `k`-th entry of `p` is somewhere. */
  lemma {:induction false} EntryOfRank(s: seq<Entry>, p: nat, n: nat, k: nat) returns (i: nat)
    requires n <= |s| && 0 < k <= Count(s, p, n)
    ensures i < n && s[i] == Some(p) && Count(s, p, i + 1) == k
    decreases n
  {
    if k <= Count(s, p, n - 1) {
      i := EntryOfRank(s, p, n - 1, k);
    } else {
      i := n - 1;
    }
  }

  lemma {:induction false} RemoveFirstKeeps(s: seq<Entry>, p: nat, j: nat)
    requires j < |s| && s[j] != Some(p)
    ensures RemoveFirst(s, p)[j] == s[j]
    decreases |s|
  {
    if s[0] != Some(p) && j > 0 {
      RemoveFirstKeeps(s[1..], p, j - 1);
    }
  }

  lemma {:induction false} RemoveFirstSpares(s: seq<Entry>, p: nat, i: nat, j: nat)
    requires i < j < |s| && s[i] == Some(p)
    ensures RemoveFirst(s, p)[j] == s[j]
    decreases |s|
  {
    if s[0] != Some(p) {
      RemoveFirstSpares(s[1..], p, i - 1, j - 1);
    }
  }

  /** An entry has been removed: in the table when as many removals as entries up to it have happened, since each
      removal nulls the first one left; in a batch when there was any removal. */
  predicate Gone(busy: bool, trace: seq<Event>, start: seq<Entry>, j: nat)
    requires j < |start|
  {
    start[j].Some? && Removals(trace, start[j].value) >= (if busy then Count(start, start[j].value, j + 1) else 1)
  }

  ghost predicate Tracked(r: Run, start: seq<Entry>, j: nat)
    requires j < |start| && |start| <= |Slots(r)|
  {
    Slots(r)[j] == if Gone(r.busy, r.trace, start, j) then None else start[j]
  }

  /** The slots are what the loop started with, less what was removed since; in a batch, those before `idx` are behind
      it and do not matter. */
  ghost predicate Tracks(r: Run, start: seq<Entry>, idx: nat)
  {
    && |start| <= |Slots(r)|
    && forall j :: (if r.busy then 0 else idx) <= j < |start| ==> Tracked(r, start, j)
  }

  /** One removal from a table that has lost the first `m` entries of `p`. */
  lemma RemoveNext(s: seq<Entry>, start: seq<Entry>, p: nat, m: nat, j: nat)
    requires |start| <= |s| && j < |start|
    requires forall i :: 0 <= i < |start| && start[i] == Some(p) ==>
      s[i] == if m >= Count(start, p, i + 1) then None else start[i]
    requires forall i :: 0 <= i < |start| && start[i] != Some(p) ==> s[i] != Some(p)
    ensures RemoveFirst(s, p)[j] == if start[j] == Some(p) && m + 1 >= Count(start, p, j + 1) then None else s[j]
  {
    if start[j] != Some(p) || m >= Count(start, p, j + 1) {
      RemoveFirstKeeps(s, p, j);
    } else if m + 1 == Count(start, p, j + 1) {
      forall i | 0 <= i < j ensures s[i] != Some(p) {
        CountUpTo(start, p, i + 1, j);
      }
      RemovedAt(s, p, j);
    } else {
      var i := EntryOfRank(start, p, j, m + 1);
      RemoveFirstSpares(s, p, i, j);
    }
  }

  lemma ActTracksTable(r: Run, start: seq<Entry>, idx: nat, p: nat)
    requires r.busy && Tracks(r, start, idx + 1)
    ensures Tracks(Act(r, idx, Remove(p)), start, idx + 1)
  {
    hide Count, Removals;
    var t, m := Act(r, idx, Remove(p)), Removals(r.trace, p);
    forall i | 0 <= i < |start|
      ensures start[i] == Some(p) ==> r.sessions[i] == if m >= Count(start, p, i + 1) then None else start[i]
      ensures start[i] != Some(p) ==> r.sessions[i] != Some(p)
    {
      assert Tracked(r, start, i);
    }
    forall j | 0 <= j < |start| ensures Tracked(t, start, j) {
      assert Tracked(r, start, j);
      RemoveNext(r.sessions, start, p, m, j);
      if start[j].Some? {
        RemovalsSnoc(r.trace, Did(Remove(p)), start[j].value);
      }
    }
  }

  lemma ActTracks(r: Run, start: seq<Entry>, idx: nat, a: Action)
    requires Tracks(r, start, idx + 1)
    ensures Tracks(Act(r, idx, a), start, idx + 1)
  {
    hide Count, Removals, RemoveFirst;
    if r.busy && a.Remove? {
      ActTracksTable(r, start, idx, a.p);
    } else {
      var t := Act(r, idx, a);
      forall j | (if r.busy then 0 else idx + 1) <= j < |start| ensures Tracked(t, start, j) {
        assert Tracked(r, start, j);
        if start[j].Some? {
          RemovalsSnoc(r.trace, Did(a), start[j].value);
        }
      }
    }
  }

  lemma {:induction false} ActAllTracks(r: Run, start: seq<Entry>, idx: nat, actions: seq<Action>)
    requires Tracks(r, start, idx + 1)
    ensures Tracks(ActAll(r, idx, actions), start, idx + 1)
    decreases |actions|
  {
    hide Tracks, Act;
    if actions != [] {
      var init := actions[..|actions| - 1];
      ActAllTracks(r, start, idx, init);
      ActTracks(ActAll(r, idx, init), start, idx, actions[|actions| - 1]);
    }
  }

  lemma TurnTracks(r: Run, start: seq<Entry>, i: nat)
    requires Tracks(r, start, i) && i < |start|
    ensures Tracks(Turn(r, i), start, i + 1)
  {
    hide ActAll;
    match Target(r, i)
    case None =>
    case Some(p) =>
      DispatchedTracks(r, start, i, p);
      if r.script != [] {
        hide Tracks;
        ActAllTracks(r.(trace := r.trace + [Dispatched(p)], script := r.script[1..]), start, i, r.script[0]);
      }
  }

  lemma DispatchedTracks(r: Run, start: seq<Entry>, i: nat, p: nat)
    requires Tracks(r, start, i)
    ensures Tracks(r.(trace := r.trace + [Dispatched(p)]), start, i + 1)
    ensures r.script != [] ==> Tracks(r.(trace := r.trace + [Dispatched(p)], script := r.script[1..]), start, i + 1)
  {
    hide Count, Removals;
    forall j | (if r.busy then 0 else i + 1) <= j < |start|
      ensures Tracked(r.(trace := r.trace + [Dispatched(p)]), start, j)
      ensures r.script != [] ==> Tracked(r.(trace := r.trace + [Dispatched(p)], script := r.script[1..]), start, j)
    {
      assert Tracked(r, start, j);
      if start[j].Some? {
        RemovalsSnoc(r.trace, Dispatched(p), start[j].value);
      }
    }
  }

  lemma {:induction false} TurnsTrack(r: Run, n: nat)
    requires r.trace == [] && n <= |Slots(r)|
    ensures Tracks(Turns(r, n), Slots(r), n)
    decreases n
  {
    hide Turn;
    if n > 0 {
      hide Tracks;
      TurnsTrack(r, n - 1);
      TurnTracks(Turns(r, n - 1), Slots(r), n - 1);
    } else {
      forall j | 0 <= j < |Slots(r)| ensures Tracked(r, Slots(r), j) {
        if Slots(r)[j].Some? {
          CountUpTo(Slots(r), Slots(r)[j].value, 0, j);
        }
      }
    }
  }

  // ----- Exactly once, in order, and additions wait -----

  /** Of the first `n` slots at the start: those not removed before their turn. */
  function Due(r: Run, n: nat): seq<nat>
    requires n <= |Slots(r)|
  {
    if n == 0 then []
    else
      var e := Slots(r)[n - 1];
      if e.Some? && !Gone(r.busy, Turns(r, n - 1).trace, Slots(r), n - 1) then Due(r, n - 1) + [e.value]
      else Due(r, n - 1)
  }

  lemma DispatchesSnoc(trace: seq<Event>, e: Event)
    ensures Dispatches(trace + [e]) == if e.Dispatched? then Dispatches(trace) + [e.p] else Dispatches(trace)
  {
    assert (trace + [e])[..|trace|] == trace;
  }

  lemma {:induction false} ActionsAreNoDispatch(r: Run, idx: nat, actions: seq<Action>)
    ensures Dispatches(ActAll(r, idx, actions).trace) == Dispatches(r.trace)
    decreases |actions|
  {
    hide Act, Dispatches;
    if actions != [] {
      var init := ActAll(r, idx, actions[..|actions| - 1]);
      ActionsAreNoDispatch(r, idx, actions[..|actions| - 1]);
      DispatchesSnoc(init.trace, Did(actions[|actions| - 1]));
    }
  }

  lemma TurnDispatches(r: Run, i: nat)
    ensures Dispatches(Turn(r, i).trace) ==
      if Target(r, i).Some? then Dispatches(r.trace) + [Target(r, i).value] else Dispatches(r.trace)
  {
    hide Dispatches, ActAll;
    match Target(r, i)
    case None =>
    case Some(p) =>
      DispatchesSnoc(r.trace, Dispatched(p));
      if r.script != [] {
        ActionsAreNoDispatch(r.(trace := r.trace + [Dispatched(p)], script := r.script[1..]), i, r.script[0]);
      }
  }

  /** What is dispatched in a step is exactly what was there at the start of the loop and not removed before its
      turn, in order and each slot once; whatever callbacks add waits for the next step. */
  lemma {:induction false} DispatchedAreDue(r: Run, n: nat)
    requires r.trace == [] && n <= |Slots(r)|
    ensures Dispatches(Turns(r, n).trace) == Due(r, n)
    decreases n
  {
    hide Turn, Dispatches, Tracks, Gone;
    if n > 0 {
      DispatchedAreDue(r, n - 1);
      var t := Turns(r, n - 1);
      TurnsTrack(r, n - 1);
      TrackedTarget(t, Slots(r), n - 1);
      TurnDispatches(t, n - 1);
    } else {
      NothingDispatched();
    }
  }

  lemma NothingDispatched()
    ensures Dispatches([]) == []
  {
  }

  lemma TrackedTarget(r: Run, start: seq<Entry>, i: nat)
    requires Tracks(r, start, i) && i < |start|
    ensures Target(r, i) == if Gone(r.busy, r.trace, start, i) then None else start[i]
  {
    assert Tracked(r, start, i);
  }

  /** In busy-poll mode each pollable that is registered once is dispatched at most once in a step. */
  lemma {:induction false} DueOnce(r: Run, n: nat, i: nat, j: nat)
    requires r.busy && Unique(r.sessions) && n <= |r.sessions| && i < j < |Due(r, n)|
    ensures Due(r, n)[i] != Due(r, n)[j]
    decreases n
  {
    hide Gone;
    if j < |Due(r, n - 1)| {
      DueOnce(r, n - 1, i, j);
    } else {
      var k := DueFrom(r, n - 1, i);
      assert r.sessions[k] != r.sessions[n - 1];
    }
  }

  /** Everything due was in some slot at the start. */
  lemma {:induction false} DueFrom(r: Run, n: nat, i: nat) returns (k: nat)
    requires n <= |Slots(r)| && i < |Due(r, n)|
    ensures k < n && Slots(r)[k] == Some(Due(r, n)[i])
    decreases n
  {
    hide Gone, Turns;
    if i < |Due(r, n - 1)| {
      k := DueFrom(r, n - 1, i);
    } else {
      k := n - 1;
    }
  }

  // ----- Removed means never again -----

  lemma {:induction false} ActionsKeepNeverAgain(r: Run, idx: nat, actions: seq<Action>)
    requires NeverAgain(r.trace)
    ensures NeverAgain(ActAll(r, idx, actions).trace)
    decreases |actions|
  {
    hide Act;
    if actions != [] {
      ActionsKeepNeverAgain(r, idx, actions[..|actions| - 1]);
    }
  }

  lemma DispatchKeepsNeverAgain(trace: seq<Event>, p: nat)
    requires NeverAgain(trace) && !Removed(trace, p)
    ensures NeverAgain(trace + [Dispatched(p)])
  {
    var more := trace + [Dispatched(p)];
    forall a, b, q | 0 <= a < b < |more| && more[a] == Did(Remove(q)) ensures more[b] != Dispatched(q) {
      assert more[a] == trace[a];
    }
  }

  /** Where an entry is the first of its kind, any removal takes it. */
  lemma FirstIsGone(busy: bool, trace: seq<Event>, start: seq<Entry>, j: nat)
    requires j < |start| && start[j].Some? && (busy ==> Unique(start))
    ensures Gone(busy, trace, start, j) <==> Removed(trace, start[j].value)
  {
    var p := start[j].value;
    RemovedMeans(trace, p);
    if busy {
      NoneBefore(start, p, j, j);
    }
  }

  lemma {:induction false} NoneBefore(start: seq<Entry>, p: nat, j: nat, n: nat)
    requires Unique(start) && n <= j < |start| && start[j] == Some(p)
    ensures Count(start, p, n) == 0
    decreases n
  {
    if n > 0 {
      assert start[n - 1].Some? ==> start[n - 1] != start[j];
      NoneBefore(start, p, j, n - 1);
    }
  }

  /** A removed pollable is not dispatched again in that step: in poller mode always, in busy-poll mode when no
      pollable is registered twice. */
  lemma {:induction false} RemovedNeverAgain(r: Run, n: nat)
    requires r.trace == [] && (r.busy ==> Unique(r.sessions)) && n <= |Slots(r)|
    ensures NeverAgain(Turns(r, n).trace)
    decreases n
  {
    hide Turn, Tracks, NeverAgain, Removed, Gone, Unique;
    if n > 0 {
      RemovedNeverAgain(r, n - 1);
      var t := Turns(r, n - 1);
      TurnsTrack(r, n - 1);
      TrackedTarget(t, Slots(r), n - 1);
      if Slots(r)[n - 1].Some? {
        FirstIsGone(r.busy, t.trace, Slots(r), n - 1);
      }
      TurnKeepsNeverAgain(t, n - 1);
    } else {
      NothingRemoved();
    }
  }

  lemma TurnKeepsNeverAgain(t: Run, i: nat)
    requires NeverAgain(t.trace)
    requires Target(t, i).Some? ==> !Removed(t.trace, Target(t, i).value)
    ensures NeverAgain(Turn(t, i).trace)
  {
    hide NeverAgain, Removed, ActAll;
    match Target(t, i)
    case None =>
    case Some(p) =>
      DispatchKeepsNeverAgain(t.trace, p);
      if t.script != [] {
        ActionsKeepNeverAgain(t.(trace := t.trace + [Dispatched(p)], script := t.script[1..]), i, t.script[0]);
      }
  }

  lemma NothingRemoved()
    ensures NeverAgain([])
  {
  }

  // ----- Removals by the step hook -----

  /** What is in no slot at the start of the loop is not dispatched. */
  lemma AbsentIsNotDispatched(r: Run, p: nat)
    requires r.trace == [] && Some(p) !in Slots(r)
    ensures p !in Dispatches(Turns(r, |Slots(r)|).trace)
  {
    var n := |Slots(r)|;
    DispatchedAreDue(r, n);
    forall i | 0 <= i < |Due(r, n)| ensures Due(r, n)[i] != p {
      var k := DueFrom(r, n, i);
      assert Slots(r)[k] == Some(Due(r, n)[i]);
    }
  }

  lemma {:induction false} NotAddedStaysAway(r: Run, actions: seq<Action>, p: nat)
    requires Some(p) !in r.sessions && forall a :: a in actions && a.Add? ==> a.p != p
    ensures Some(p) !in ActAll(r, 0, actions).sessions
    decreases |actions|
  {
    if actions != [] {
      var init, a := actions[..|actions| - 1], actions[|actions| - 1];
      NotAddedStaysAway(r, init, p);
      var t := ActAll(r, 0, init);
      if a.Remove? {
        forall j | 0 <= j < |t.sessions| ensures RemoveFirst(t.sessions, a.p)[j] != Some(p) {
          RemoveOnlyNulls(t.sessions, a.p, j);
        }
      }
    }
  }

  lemma {:induction false} RemoveOnlyNulls(s: seq<Entry>, p: nat, j: nat)
    requires j < |s|
    ensures RemoveFirst(s, p)[j] == s[j] || RemoveFirst(s, p)[j] == None
    decreases |s|
  {
    if s[0] != Some(p) && j > 0 {
      RemoveOnlyNulls(s[1..], p, j - 1);
    }
  }

  /** Removing a pollable that is registered at most once leaves none. */
  lemma RemoveClears(s: seq<Entry>, p: nat)
    requires Unique(s)
    ensures Some(p) !in RemoveFirst(s, p)
  {
    forall j | 0 <= j < |s| ensures RemoveFirst(s, p)[j] != Some(p) {
      if s[j] == Some(p) {
        forall i | 0 <= i < j ensures s[i] != Some(p) {
        }
        RemovedAt(s, p, j);
      } else {
        RemoveFirstKeeps(s, p, j);
      }
    }
  }

  lemma {:induction false} ActAllSplits(r: Run, before: seq<Action>, after: seq<Action>)
    ensures ActAll(r, 0, before + after) == ActAll(ActAll(r, 0, before), 0, after)
    decreases |after|
  {
    if after == [] {
      assert before + after == before;
    } else {
      var k := |after| - 1;
      assert (before + after)[..|before| + k] == before + after[..k];
      ActAllSplits(r, before, after[..k]);
    }
  }

  /** A pollable that the step hook removes and does not add again is not dispatched in that step: in busy-poll mode
      when nothing was registered twice at that point, in poller mode when the poller forgets it. */
  lemma HookRemovalHolds(sessions: seq<Entry>, busy: bool, before: seq<Action>, p: nat, after: seq<Action>,
                         batch: seq<Entry>, script: seq<seq<Action>>)
    requires var t := ActAll(Run(busy, sessions, [], [], []), 0, before); Unique(t.sessions)
    requires forall a :: a in after && a.Add? ==> a.p != p
    requires !busy ==> Some(p) !in batch
    ensures var table := ActAll(Run(busy, sessions, [], [], []), 0, before + ([Remove(p)] + after)).sessions;
      var r := Run(busy, table, if busy then [] else batch, [], script);
      p !in Dispatches(Turns(r, |Slots(r)|).trace)
  {
    var start := Run(busy, sessions, [], [], []);
    var t := ActAll(start, 0, before);
    ActAllSplits(start, before, [Remove(p)] + after);
    ActAllSplits(t, [Remove(p)], after);
    OneAction(t, Remove(p));
    RemoveClears(t.sessions, p);
    NotAddedStaysAway(Act(t, 0, Remove(p)), after, p);
    var table := ActAll(start, 0, before + ([Remove(p)] + after)).sessions;
    AbsentIsNotDispatched(Run(busy, table, if busy then [] else batch, [], script), p);
  }

  lemma OneAction(r: Run, a: Action)
    ensures ActAll(r, 0, [a]) == Act(r, 0, a)
  {
    assert [a][..0] == [];
    assert ActAll(r, 0, []) == r;
  }

  /** The sweep drops the nulled entries and no other. */
  lemma {:induction false} SweepKeeps(s: seq<Entry>, p: nat)
    ensures None !in Sweep(s) && multiset(Sweep(s))[Some(p)] == multiset(s)[Some(p)]
    decreases |s|
  {
    if s != [] {
      var k := |s| - 1;
      SweepKeeps(s[..k], p);
      assert s == s[..k] + [s[k]];
    }
  }

  /** Where the entries that survive the sweep were before. */
  function Survivors(s: seq<Entry>): seq<nat>
  {
    if s == [] then []
    else if s[|s| - 1].None? then Survivors(s[..|s| - 1])
    else Survivors(s[..|s| - 1]) + [|s| - 1]
  }

  /** Survivors keep their order: the swept table is read off the old one at strictly increasing positions, which are
      all that are not nulled. */
  lemma {:induction false} SweepOrder(s: seq<Entry>)
    ensures var at := Survivors(s);
      && |at| == |Sweep(s)|
      && (forall i :: 0 <= i < |at| ==> at[i] < |s| && Sweep(s)[i] == s[at[i]])
      && (forall i, j :: 0 <= i < j < |at| ==> at[i] < at[j])
      && (forall k :: 0 <= k < |s| ==> (k in at <==> s[k].Some?))
    decreases |s|
  {
    if s != [] {
      var n := |s| - 1;
      SweepOrder(s[..n]);
      var init := Survivors(s[..n]);
      forall k | 0 <= k < |s| ensures k in Survivors(s) <==> s[k].Some? {
        if k < n {
          assert s[..n][k] == s[k];
          assert k in init <==> s[k].Some?;
        } else {
          assert k !in init;
        }
      }
    }
  }

  // ----- From one step to the next -----

  /** The entries added, in order. */
  function Additions(busy: bool, trace: seq<Event>): seq<Entry>
  {
    if trace == [] then []
    else
      var init, e := Additions(busy, trace[..|trace| - 1]), trace[|trace| - 1];
      if e.Did? && e.action.Add? && (busy || e.action.ok) then init + [Some(e.action.p)] else init
  }

  /** The table is the one at the start and the additions behind it, with removed pollables nulled here and there. */
  ghost predicate Grown(r: Run, start: seq<Entry>)
  {
    var all := start + Additions(r.busy, r.trace);
    && |r.sessions| == |all|
    && forall i :: 0 <= i < |all| ==>
         r.sessions[i] == all[i] || (r.sessions[i].None? && all[i].Some? && Removed(r.trace, all[i].value))
  }

  lemma AdditionsSnoc(busy: bool, trace: seq<Event>, e: Event)
    ensures Additions(busy, trace + [e]) == Additions(busy, trace)
      + if e.Did? && e.action.Add? && (busy || e.action.ok) then [Some(e.action.p)] else []
  {
    assert (trace + [e])[..|trace|] == trace;
  }

  lemma {:induction false} NulledOnly(s: seq<Entry>, p: nat, i: nat)
    requires i < |s|
    ensures RemoveFirst(s, p)[i] == s[i] || (RemoveFirst(s, p)[i].None? && s[i] == Some(p))
    decreases |s|
  {
    if i > 0 && s[0] != Some(p) {
      NulledOnly(s[1..], p, i - 1);
    }
  }

  lemma ActGrows(r: Run, idx: nat, a: Action, start: seq<Entry>)
    requires Grown(r, start)
    ensures Grown(Act(r, idx, a), start)
  {
    hide Additions;
    var t := Act(r, idx, a);
    AdditionsSnoc(r.busy, r.trace, Did(a));
    var before, all := start + Additions(r.busy, r.trace), start + Additions(r.busy, t.trace);
    forall i | 0 <= i < |all|
      ensures t.sessions[i] == all[i] || (t.sessions[i].None? && all[i].Some? && Removed(t.trace, all[i].value))
    {
      if i < |before| {
        assert all[i] == before[i];
        if a.Remove? {
          NulledOnly(r.sessions, a.p, i);
          assert t.trace[|r.trace|] == Did(a);
        }
      }
    }
  }

  lemma {:induction false} ActAllGrows(r: Run, idx: nat, actions: seq<Action>, start: seq<Entry>)
    requires Grown(r, start)
    ensures Grown(ActAll(r, idx, actions), start)
    decreases |actions|
  {
    hide Grown, Act;
    if actions != [] {
      ActAllGrows(r, idx, actions[..|actions| - 1], start);
      ActGrows(ActAll(r, idx, actions[..|actions| - 1]), idx, actions[|actions| - 1], start);
    }
  }

  lemma DispatchGrows(r: Run, p: nat, script: seq<seq<Action>>, start: seq<Entry>)
    requires Grown(r, start)
    ensures Grown(r.(trace := r.trace + [Dispatched(p)], script := script), start)
  {
    hide Additions;
    AdditionsSnoc(r.busy, r.trace, Dispatched(p));
  }

  /** The table after `n` turns, whatever the callbacks did: the old entries in their places and the additions behind
      them in order; only pollables that were removed are nulled. */
  lemma {:induction false} TableGrows(r: Run, n: nat)
    requires r.trace == []
    ensures Grown(Turns(r, n), r.sessions)
    decreases n
  {
    hide Grown, ActAll, Additions;
    if n == 0 {
      NothingAdded(r);
    } else {
      TableGrows(r, n - 1);
      var t := Turns(r, n - 1);
      if Target(t, n - 1).Some? {
        var p := Target(t, n - 1).value;
        if t.script == [] {
          DispatchGrows(t, p, [], r.sessions);
        } else {
          DispatchGrows(t, p, t.script[1..], r.sessions);
          ActAllGrows(t.(trace := t.trace + [Dispatched(p)], script := t.script[1..]), n - 1, t.script[0], r.sessions);
        }
      }
    }
  }

  lemma NothingAdded(r: Run)
    requires r.trace == []
    ensures Grown(r, r.sessions)
  {
    assert r.sessions + [] == r.sessions;
  }

  /** The pollables in a table, in order. */
  function Pollables(s: seq<Entry>): seq<nat>
  {
    if s == [] then []
    else if s[|s| - 1].Some? then Pollables(s[..|s| - 1]) + [s[|s| - 1].value]
    else Pollables(s[..|s| - 1])
  }

  lemma {:induction false} SweptPollables(s: seq<Entry>)
    ensures Pollables(Sweep(s)) == Pollables(s)
    decreases |s|
  {
    if s != [] {
      var k := |s| - 1;
      SweptPollables(s[..k]);
      if s[k].Some? {
        assert Sweep(s)[..|Sweep(s)| - 1] == Sweep(s[..k]);
      }
    }
  }

  ghost predicate AllQuiet(script: seq<seq<Action>>)
  {
    forall i :: 0 <= i < |script| ==> script[i] == []
  }

  lemma {:induction false} QuietDispatches(start: seq<Entry>, script: seq<seq<Action>>, n: nat)
    requires AllQuiet(script) && n <= |start|
    ensures var t := Turns(Run(true, start, [], [], script), n);
      t.sessions == start && AllQuiet(t.script) && Dispatches(t.trace) == Pollables(start[..n])
    decreases n
  {
    hide Dispatches;
    if n == 0 {
      NothingDispatched();
      assert start[..0] == [];
    } else {
      QuietDispatches(start, script, n - 1);
      var t := Turns(Run(true, start, [], [], script), n - 1);
      TurnDispatches(t, n - 1);
      assert start[..n][..n - 1] == start[..n - 1];
    }
  }

  /** Without additions and removals, a busy-poll step dispatches the whole table in order, and so does the next one,
      on the swept table. */
  lemma QuietStepsAgree(start: seq<Entry>, first: seq<seq<Action>>, second: seq<seq<Action>>)
    requires AllQuiet(first) && AllQuiet(second)
    ensures var one := Turns(Run(true, start, [], [], first), |start|);
      var table := Sweep(one.sessions);
      var two := Turns(Run(true, table, [], [], second), |table|);
      Dispatches(one.trace) == Pollables(start) == Dispatches(two.trace)
  {
    hide Dispatches, Turns;
    QuietDispatches(start, first, |start|);
    assert start[..|start|] == start;
    var table := Sweep(start);
    QuietDispatches(table, second, |table|);
    assert table[..|table|] == table;
    SweptPollables(start);
  }

  // ----- Pollables registered twice -----

  function CountSome(s: seq<Entry>): nat
  {
    if s == [] then 0 else CountSome(s[..|s| - 1]) + (if s[|s| - 1].Some? then 1 else 0)
  }

  /** Callbacks that do nothing change nothing: each turn only uses up its part of the script. */
  lemma {:induction false} QuietTurns(start: seq<Entry>, quiet: nat, rest: seq<seq<Action>>, n: nat)
    requires n <= |start| && CountSome(start[..n]) <= quiet
    ensures var t := Turns(Run(true, start, [], [], seq(quiet, _ => []) + rest), n);
      t.sessions == start && t.events == [] && t.script == seq(quiet - CountSome(start[..n]), _ => []) + rest
    decreases n
  {
    if n == 0 {
      assert start[..0] == [];
    } else {
      assert start[..n][..n - 1] == start[..n - 1];
      QuietTurns(start, quiet, rest, n - 1);
      var left := quiet - CountSome(start[..n - 1]);
      if start[n - 1].Some? {
        QuietScript(left, rest);
      }
    }
  }

  lemma QuietScript(left: nat, rest: seq<seq<Action>>)
    requires left > 0
    ensures var s := seq(left, _ => []) + rest;
      s != [] && s[0] == [] && s[1..] == seq(left - 1, _ => []) + rest
  {
    var s: seq<seq<Action>> := seq(left, _ => []) + rest;
    assert s[1..] == seq(left - 1, _ => []) + rest;
  }

  /** With no script left, the table stays and every entry is dispatched. */
  lemma {:induction false} SilentTurns(r: Run, m: nat, n: nat)
    requires r.busy && m <= n <= |Turns(r, m).sessions| && Turns(r, m).script == []
    ensures Turns(r, n).sessions == Turns(r, m).sessions && Turns(r, n).script == []
    ensures Turns(r, m).trace <= Turns(r, n).trace
    decreases n
  {
    if n > m {
      SilentTurns(r, m, n - 1);
    }
  }

  lemma {:induction false} FirstOf(start: seq<Entry>, i: nat) returns (k: nat)
    requires i < |start| && start[i].Some?
    ensures k <= i && start[k] == start[i] && start[i] !in start[..k]
    decreases i
  {
    if start[i] in start[..i] {
      var h :| 0 <= h < i && start[h] == start[i];
      k := FirstOf(start, h);
    } else {
      k := i;
    }
  }

  /** `remove` nulls one entry only: a pollable registered twice and removed by the callback of its first entry is
      dispatched again in the same step. */
  lemma TwiceIsAgain(start: seq<Entry>, i: nat, j: nat) returns (script: seq<seq<Action>>)
    requires i < j < |start| && start[i].Some? && start[i] == start[j] && start[i] !in start[..i]
    ensures !NeverAgain(Turns(Run(true, start, [], [], script), |start|).trace)
  {
    hide CountSome, NeverAgain, Turn, Turns;
    var p, quiet := start[i].value, CountSome(start[..i]);
    script := seq(quiet, _ => []) + [[Remove(p)]];
    var r := Run(true, start, [], [], script);
    RemovedOnce(r, i, p, quiet);
    SilentTurns(r, i + 1, j);
    LastTurn(r, j, p);
    SilentTurns(r, j + 1, |start|);
    var a, b := |Turns(r, i).trace| + 1, |Turns(r, j).trace|;
    var all := Turns(r, |start|).trace;
    assert all[a] == Turns(r, i + 1).trace[a] && all[b] == Turns(r, j + 1).trace[b];
    ShowsAgain(all, a, b, p);
  }

  /** The quiet turns up to `i`, and then the one that removes. */
  lemma RemovedOnce(r: Run, i: nat, p: nat, quiet: nat)
    requires r.busy && r.events == [] && r.trace == [] && i < |r.sessions| && r.sessions[i] == Some(p)
    requires Some(p) !in r.sessions[..i] && quiet == CountSome(r.sessions[..i])
    requires r.script == seq(quiet, _ => []) + [[Remove(p)]]
    ensures var t, u := Turns(r, i), Turns(r, i + 1);
      && u.script == [] && u.sessions == r.sessions[i := None]
      && u.trace == t.trace + [Dispatched(p)] + [Did(Remove(p))]
  {
    hide CountSome, Turn;
    QuietTurns(r.sessions, quiet, [[Remove(p)]], i);
    var t := Turns(r, i);
    assert t.script == [[Remove(p)]];
    RemovesOnce(t, i, p);
    RemovedAt(r.sessions, p, i);
  }

  /** A turn without a script only dispatches. */
  lemma LastTurn(r: Run, j: nat, p: nat)
    requires r.busy && j < |Turns(r, j).sessions| && Turns(r, j).sessions[j] == Some(p) && Turns(r, j).script == []
    ensures var v, w := Turns(r, j), Turns(r, j + 1);
      w.trace == v.trace + [Dispatched(p)] && w.sessions == v.sessions && w.script == []
  {
  }

  lemma ShowsAgain(trace: seq<Event>, a: nat, b: nat, p: nat)
    requires a < b < |trace| && trace[a] == Did(Remove(p)) && trace[b] == Dispatched(p)
    ensures !NeverAgain(trace)
  {
  }

  lemma RemovesOnce(t: Run, i: nat, p: nat)
    requires t.busy && i < |t.sessions| && t.sessions[i] == Some(p) && t.script == [[Remove(p)]]
    ensures Turn(t, i).sessions == RemoveFirst(t.sessions, p) && Turn(t, i).script == []
    ensures Turn(t, i).trace == t.trace + [Dispatched(p)] + [Did(Remove(p))]
  {
    var d := t.(trace := t.trace + [Dispatched(p)], script := t.script[1..]);
    assert [Remove(p)][..0] == [];
    assert ActAll(d, i, []) == d;
    assert ActAll(d, i, [Remove(p)]) == Act(d, i, Remove(p));
  }

  /** In busy-poll mode, whatever the callbacks do, a removed pollable is not dispatched again if and only if no
      pollable is registered twice when the loop starts. */
  lemma NeverAgainIff(start: seq<Entry>)
    ensures (forall script :: NeverAgain(Turns(Run(true, start, [], [], script), |start|).trace))
      <==> Unique(start)
  {
    if Unique(start) {
      forall script ensures NeverAgain(Turns(Run(true, start, [], [], script), |start|).trace) {
        RemovedNeverAgain(Run(true, start, [], [], script), |start|);
      }
    } else {
      var i, j :| 0 <= i < j < |start| && start[i].Some? && start[i] == start[j];
      var k := FirstOf(start, i);
      var script := TwiceIsAgain(start, k, j);
    }
  }
}
