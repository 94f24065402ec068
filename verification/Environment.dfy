/**
 What the sessions run against: a clock, a pool of buffers and a byte transport.  Each is
 nondeterministic within its contract, so whatever is proved of a session holds for every schedule,
 every partial read or write and every exhaustion of the pool.
 */
module Environment {
  import opened Bits
  import opened IoBuffer
  import opened Wrappers

  /** A clock that never runs backwards. */
  class Clock {
    var now: int

    constructor () { now := 0; }

    method Now() returns (t: int)
      modifies this
      ensures t == now >= old(now)
    {
      t := *;
      if t < now {
        t := now;
      }
      now := t;
    }
  }

  /** The size of a pool's buffers: whole cache lines. */
  function Rounded(size: nat): (cap: nat)
    ensures cap % 64 == 0 && size <= cap < size + 64
  {
    (size + 63) / 64 * 64
  }

  lemma {:induction false} FreshFor(held: set<nat>) returns (id: nat)
    ensures id !in held && forall x :: x in held ==> x < id
    decreases held
  {
    if held == {} {
      id := 0;
    } else {
      var x :| x in held;
      var rest := FreshFor(held - {x});
      id := if x < rest then rest else x + 1;
      forall y | y in held ensures y < id {
        assert y == x || y in held - {x};
      }
    }
  }

  /** The pool as its clients see it: the buffers that are handed out. */
  class Pool {
    const cap: nat
    var held: set<nat>

    constructor (size: nat)
      ensures cap == Rounded(size) && held == {}
    {
      cap, held := Rounded(size), {};
    }

    /** Some buffer that nobody holds, or none; whether the pool has one is up to the environment. */
    method Acquire(reserve: nat, grant: bool) returns (b: Option<Window>)
      requires reserve <= cap
      modifies this`held
      ensures b.Some? <==> grant
      ensures b.None? ==> held == old(held)
      ensures b.Some? ==> b.value == Window(b.value.id, cap, reserve, [])
      ensures b.Some? ==> b.value.id !in old(held) && held == old(held) + {b.value.id}
    {
      if !grant {
        return None;
      }
      ghost var free := FreshFor(held);
      var id: nat :| id !in held;
      held := held + {id};
      return Some(Window(id, cap, reserve, []));
    }

    method Release(b: Window)
      requires b.id in held
      modifies this`held
      ensures held == old(held) - {b.id}
    {
      held := held - {b.id};
    }
  }

  /** What the environment will answer: whether the pool has a buffer and how much of a write is taken.  Once the
      script is used up, the answers are arbitrary. */
  class Oracle {
    var grants: seq<bool>
    var wishes: seq<int>

    constructor (grants: seq<bool>, wishes: seq<int>)
      ensures this.grants == grants && this.wishes == wishes
    {
      this.grants, this.wishes := grants, wishes;
    }

    method Grant() returns (g: bool)
      modifies this`grants
      ensures old(grants) != [] ==> g == old(grants)[0] && grants == old(grants)[1..]
      ensures old(grants) == [] ==> grants == []
    {
      if grants == [] {
        g := *;
      } else {
        g, grants := grants[0], grants[1..];
      }
    }

    method Wish() returns (n: int)
      modifies this`wishes
      ensures old(wishes) != [] ==> n == old(wishes)[0] && wishes == old(wishes)[1..]
      ensures old(wishes) == [] ==> wishes == []
    {
      if wishes == [] {
        n := *;
      } else {
        n, wishes := wishes[0], wishes[1..];
      }
    }
  }

  const EAGAIN: int := 11

  /** A result of a read or write that is neither progress nor a request to wait. */
  predicate IsError(n: int) { n < 0 && n != -EAGAIN }

  datatype Phase = PhasePending | PhaseOpen | PhaseFailed | PhaseClosed

  /** A write: what was offered and what came of it. */
  datatype Attempt = Attempt(offered: seq<byte>, result: int)

  /** One connection at a time: what was accepted from the session and what was handed to it on this connection; and
      the results of all reads and all writes so far. */
  class Transport {
    var open: bool
    ghost var accepted: seq<byte>
    ghost var inbound: seq<byte>
    ghost var results: seq<int>
    ghost var tries: seq<Attempt>

    /** The last write took less than it was offered. */
    ghost predicate TookLess()
      reads this`tries
    {
      tries != [] && tries[|tries| - 1].result < |tries[|tries| - 1].offered|
    }

    constructor ()
      ensures !open && accepted == [] && inbound == []
    {
      open, accepted, inbound, results, tries := false, [], [], [], [];
    }

    /** Starts a new connection, or fails. */
    method Connect(ok: bool)
      modifies this`open, this`accepted, this`inbound
      ensures accepted == [] && inbound == [] && open == ok
    {
      open, accepted, inbound := ok, [], [];
    }

    /** Where the connection attempt is; a transport that was closed is not open. */
    method PollOpen(wish: Phase) returns (phase: Phase)
      ensures phase == if wish.PhaseOpen? && !open then PhaseFailed else wish
    {
      phase := if wish.PhaseOpen? && !open then PhaseFailed else wish;
    }

    /** Accepts some of the bytes, or none and says why; a closed transport accepts none. */
    method Write(rest: seq<byte>, wish: int) returns (n: int)
      requires rest != []
      modifies this`accepted, this`tries
      ensures n != 0 && n <= |rest| && tries == old(tries) + [Attempt(rest, n)]
      ensures n > 0 ==> open && accepted == old(accepted) + rest[..n]
      ensures n < 0 ==> accepted == old(accepted)
      ensures wish < 0 ==> n == wish
    {
      n := wish;
      if n == 0 || n > |rest| || (n > 0 && !open) {
        n := -EAGAIN;
      }
      if n > 0 {
        accepted := accepted + rest[..n];
      }
      tries := tries + [Attempt(rest, n)];
    }

    /** Hands over some bytes, or none: end of stream, an error, or nothing yet. */
    method Read(room: nat) returns (n: int, data: seq<byte>)
      requires room > 0
      modifies this`inbound, this`results
      ensures results == old(results) + [n]
      ensures n > 0 ==> open && |data| == n <= room && inbound == old(inbound) + data
      ensures n <= 0 ==> inbound == old(inbound)
    {
      data := *;
      n := *;
      if n > 0 {
        if !open || |data| != n || n > room {
          n := -EAGAIN;
        } else {
          inbound := inbound + data;
        }
      }
      results := results + [n];
    }

    method Close()
      modifies this`open
      ensures !open
    {
      open := false;
    }
  }
}
