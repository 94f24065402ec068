/**
 The ring of pending outbound buffers, seen as a queue of buffers with the number of bytes already
 sent, and the pool buffers a session owns.
 */
module WsPending {
  import opened Bits
  import opened IoBuffer
  import opened Ownership
  import opened Wrappers

  const MAX_PENDING: nat := 32

  datatype Slot = Slot(buf: Option<Window>, sent: nat)

  // ----- The ring as a queue -----

  /** The slot of the `i`-th pending buffer. */
  function At(head: nat, i: nat): (k: nat)
    requires head < MAX_PENDING
    ensures k < MAX_PENDING
  {
    (head + i) % MAX_PENDING
  }

  predicate Live(slots: seq<Slot>, head: nat, count: nat)
  {
    && |slots| == MAX_PENDING && head < MAX_PENDING && count <= MAX_PENDING
    && forall i :: 0 <= i < count ==> slots[At(head, i)].buf.Some?
  }

  datatype Item = Item(buf: Window, sent: nat) {
    /** Some of it is still to be written. */
    ghost predicate Valid(cap: nat)
    {
      buf.Valid() && buf.cap == cap && sent < |buf.bytes|
    }

    function Rest(): seq<byte>
      requires sent <= |buf.bytes|
    {
      buf.bytes[sent..]
    }
  }

  function Queue(slots: seq<Slot>, head: nat, count: nat): (q: seq<Item>)
    requires Live(slots, head, count)
    ensures |q| == count
  {
    seq(count, i requires 0 <= i < count => var s := slots[At(head, i)]; Item(s.buf.value, s.sent))
  }

  lemma QueuePush(slots: seq<Slot>, head: nat, count: nat, b: Window)
    requires Live(slots, head, count) && count < MAX_PENDING
    ensures var slots' := slots[At(head, count) := Slot(Some(b), 0)];
      Live(slots', head, count + 1) && Queue(slots', head, count + 1) == Queue(slots, head, count) + [Item(b, 0)]
  {
    var slots' := slots[At(head, count) := Slot(Some(b), 0)];
    forall i | 0 <= i < count ensures slots'[At(head, i)] == slots[At(head, i)] {
    }
  }

  lemma LiveBounds(slots: seq<Slot>, head: nat, count: nat)
    requires Live(slots, head, count)
    ensures |slots| == MAX_PENDING && head < MAX_PENDING && count <= MAX_PENDING
  {
  }

  lemma EmptyRing(slots: seq<Slot>)
    requires |slots| == MAX_PENDING
    ensures Live(slots, 0, 0)
  {
  }

  lemma NothingQueued(slots: seq<Slot>, head: nat)
    requires Live(slots, head, 0)
    ensures Queue(slots, head, 0) == []
  {
  }

  lemma FrontSlot(slots: seq<Slot>, head: nat, count: nat)
    requires Live(slots, head, count) && count > 0
    ensures slots[head].buf.Some?
    ensures Queue(slots, head, count)[0] == Item(slots[head].buf.value, slots[head].sent)
  {
    assert At(head, 0) == head;
  }

  lemma QueueSend(slots: seq<Slot>, head: nat, count: nat, front: Window, sent: nat)
    requires Live(slots, head, count) && count > 0
    ensures var slots' := slots[head := Slot(Some(front), sent)];
      && Live(slots', head, count)
      && Queue(slots', head, count) == [Item(front, sent)] + Queue(slots, head, count)[1..]
  {
    var slots' := slots[head := Slot(Some(front), sent)];
    assert At(head, 0) == head;
    forall i | 0 < i < count ensures slots'[At(head, i)] == slots[At(head, i)] {
    }
  }

  lemma QueuePop(slots: seq<Slot>, head: nat, count: nat, gone: Slot)
    requires Live(slots, head, count) && count > 0
    ensures var slots' := slots[head := gone];
      && Live(slots', At(head, 1), count - 1)
      && Queue(slots', At(head, 1), count - 1) == Queue(slots, head, count)[1..]
  {
    var slots', head' := slots[head := gone], At(head, 1);
    forall i | 0 <= i < count - 1 ensures slots'[At(head', i)] == slots[At(head, i + 1)] {
      NextSlot(head, i);
    }
  }

  lemma NextSlot(head: nat, i: nat)
    requires head < MAX_PENDING && i + 1 < MAX_PENDING
    ensures At(At(head, 1), i) == At(head, i + 1) != head
  {
  }

  // ----- Bytes still to be written -----

  ghost predicate AllValid(q: seq<Item>, cap: nat)
  {
    forall i :: 0 <= i < |q| ==> q[i].Valid(cap)
  }

  lemma FrontValid(q: seq<Item>, cap: nat)
    requires AllValid(q, cap) && q != []
    ensures q[0].Valid(cap) && AllValid(q[1..], cap)
  {
  }

  ghost function Remaining(q: seq<Item>, cap: nat): seq<byte>
    requires AllValid(q, cap)
  {
    if q == [] then [] else q[0].Rest() + Remaining(q[1..], cap)
  }

  lemma {:induction false} RemainingPush(q: seq<Item>, b: Window, cap: nat)
    requires AllValid(q, cap) && Item(b, 0).Valid(cap)
    ensures AllValid(q + [Item(b, 0)], cap)
    ensures Remaining(q + [Item(b, 0)], cap) == Remaining(q, cap) + b.bytes
    decreases |q|
  {
    var x := Item(b, 0);
    if q == [] {
      assert q + [x] == [x] && [x][1..] == [];
      assert x.Rest() + [] == b.bytes;
    } else {
      assert (q + [x])[0] == q[0] && (q + [x])[1..] == q[1..] + [x];
      RemainingPush(q[1..], b, cap);
      assert (q[0].Rest() + Remaining(q[1..], cap)) + b.bytes == q[0].Rest() + (Remaining(q[1..], cap) + b.bytes);
    }
  }

  /** Writing `n` bytes of the front buffer takes exactly those off what remains. */
  lemma RemainingSend(q: seq<Item>, n: nat, cap: nat)
    requires AllValid(q, cap) && q != [] && n <= |q[0].Rest()|
    ensures AllValid(q[1..], cap)
    ensures n == |q[0].Rest()| ==> Remaining(q, cap) == q[0].Rest()[..n] + Remaining(q[1..], cap)
    ensures n < |q[0].Rest()| ==>
      var q' := [Item(q[0].buf, q[0].sent + n)] + q[1..];
      AllValid(q', cap) && Remaining(q, cap) == q[0].Rest()[..n] + Remaining(q', cap)
  {
    var rest := q[0].Rest();
    assert rest[..n] + rest[n..] == rest;
    if n < |rest| {
      var front := Item(q[0].buf, q[0].sent + n);
      var q' := [front] + q[1..];
      assert q'[1..] == q[1..] && front.Rest() == rest[n..];
      assert rest[..n] + (rest[n..] + Remaining(q[1..], cap)) == rest + Remaining(q[1..], cap);
    } else {
      assert rest[..n] == rest;
    }
  }

  // ----- Ownership -----

  function Ids(q: seq<Item>): seq<nat>
  {
    seq(|q|, i requires 0 <= i < |q| => q[i].buf.id)
  }

  /** Every handle a session has. */
  function Handles(recv: Option<Window>, frag: Option<Window>, q: seq<Item>): multiset<nat>
  {
    Handle(recv) + Handle(frag) + multiset(Ids(q))
  }

  ghost predicate Owns(held: set<nat>, others: set<nat>, recv: Option<Window>, frag: Option<Window>, q: seq<Item>)
  {
    Owned(held, others, Handles(recv, frag, q))
  }

  lemma HandlesPush(recv: Option<Window>, frag: Option<Window>, q: seq<Item>, b: Window)
    ensures Handles(recv, frag, q + [Item(b, 0)]) == Handles(recv, frag, q) + multiset{b.id}
  {
    assert Ids(q + [Item(b, 0)]) == Ids(q) + [b.id];
  }

  lemma HandlesPop(recv: Option<Window>, frag: Option<Window>, q: seq<Item>)
    requires q != []
    ensures Handles(recv, frag, q) == Handles(recv, frag, q[1..]) + multiset{q[0].buf.id}
  {
    assert Ids(q) == [q[0].buf.id] + Ids(q[1..]);
  }

  lemma OwnsPush(held: set<nat>, others: set<nat>, recv: Option<Window>, frag: Option<Window>, q: seq<Item>, b: Window)
    requires Owns(held, others, recv, frag, q) && b.id !in held
    ensures Owns(held + {b.id}, others, recv, frag, q + [Item(b, 0)])
  {
    HandlesPush(recv, frag, q, b);
    Acquired(held, others, Handles(recv, frag, q), b.id);
  }

  lemma OwnsPop(held: set<nat>, others: set<nat>, recv: Option<Window>, frag: Option<Window>, q: seq<Item>)
    requires Owns(held, others, recv, frag, q) && q != []
    ensures var id := q[0].buf.id; id in held && Owns(held - {id}, others, recv, frag, q[1..])
  {
    HandlesPop(recv, frag, q);
    Released(held, others, Handles(recv, frag, q[1..]), q[0].buf.id);
  }

  lemma OwnsSend(held: set<nat>, others: set<nat>, recv: Option<Window>, frag: Option<Window>, q: seq<Item>, sent: nat)
    requires Owns(held, others, recv, frag, q) && q != []
    ensures Owns(held, others, recv, frag, [Item(q[0].buf, sent)] + q[1..])
  {
    assert Ids([Item(q[0].buf, sent)] + q[1..]) == Ids(q);
  }

  lemma OwnsRecvIn(held: set<nat>, others: set<nat>, frag: Option<Window>, q: seq<Item>, b: Window)
    requires Owns(held, others, None, frag, q) && b.id !in held
    ensures Owns(held + {b.id}, others, Some(b), frag, q)
  {
    hide Ids;
    Acquired(held, others, Handles(None, frag, q), b.id);
    assert Handles(Some(b), frag, q) == Handles(None, frag, q) + multiset{b.id};
  }

  lemma OwnsRecvOut(held: set<nat>, others: set<nat>, b: Window, frag: Option<Window>, q: seq<Item>)
    requires Owns(held, others, Some(b), frag, q)
    ensures b.id in held && Owns(held - {b.id}, others, None, frag, q)
  {
    hide Ids;
    assert Handles(Some(b), frag, q) == Handles(None, frag, q) + multiset{b.id};
    Released(held, others, Handles(None, frag, q), b.id);
  }

  lemma OwnsFragIn(held: set<nat>, others: set<nat>, recv: Option<Window>, q: seq<Item>, b: Window)
    requires Owns(held, others, recv, None, q) && b.id !in held
    ensures Owns(held + {b.id}, others, recv, Some(b), q)
  {
    hide Ids;
    Acquired(held, others, Handles(recv, None, q), b.id);
    assert Handles(recv, Some(b), q) == Handles(recv, None, q) + multiset{b.id};
  }

  lemma OwnsFragOut(held: set<nat>, others: set<nat>, recv: Option<Window>, b: Window, q: seq<Item>)
    requires Owns(held, others, recv, Some(b), q)
    ensures b.id in held && Owns(held - {b.id}, others, recv, None, q)
  {
    hide Ids;
    assert Handles(recv, Some(b), q) == Handles(recv, None, q) + multiset{b.id};
    Released(held, others, Handles(recv, None, q), b.id);
  }

  /** Only the identities of the buffers matter. */
  lemma OwnsSameIds(held: set<nat>, others: set<nat>, recv: Option<Window>, frag: Option<Window>, q: seq<Item>,
                    recv': Option<Window>, frag': Option<Window>)
    requires Owns(held, others, recv, frag, q) && Handle(recv') == Handle(recv) && Handle(frag') == Handle(frag)
    ensures Owns(held, others, recv', frag', q)
  {
  }

  lemma OwnsNothing(held: set<nat>, others: set<nat>, q: seq<Item>)
    requires q == []
    ensures Owns(held, others, None, None, q) <==> held == others
  {
    assert Ids(q) == [];
    OwnedNothing(held, others);
  }
}
