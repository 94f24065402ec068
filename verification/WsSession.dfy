/**
 The WebSocket client session: connection life cycle, upgrade, bounded outbound queue, inbound frames
 and keepalive, against any transport, pool and clock, and any use of `send` and `close` by the
 message callback.

 `Valid` is what every public call keeps.  It ties the session to its books (`WsLedger`), from which the
 whole-run theorems at the end of the class follow.
 */
module WsSession {
  import opened Bits
  import opened Environment
  import opened IoBuffer
  import opened Wrappers
  import opened WsDropping
  import opened WsFrame
  import opened WsLedger
  import opened WsMask
  import opened WsPending
  import opened WsStreams
  import WsUpgrade
  import HttpRequest

  datatype SendStatus = Ok | WouldBlock | NotOpen | TooLarge

  datatype Config = Config(host: seq<byte>, path: seq<byte>, secKey: seq<byte>, expected: seq<byte>,
                           pingInterval: int, pongTimeout: int, connectTimeout: int)

  type Code = c: nat | c < 0x1_0000

  /** What the message callback may call. */
  datatype Call = CallSend(payload: seq<byte>, binary: bool) | CallClose(code: Code)

  /** A frame in a buffer of its own, or why there is none. */
  datatype Made = Made(frame: OutFrame, buf: Window) | Unmade(why: SendStatus)

  /** What came of writing the front buffer. */
  datatype Written = Refused | Broke | Partly | Wholly

  predicate IsLive(s: State) { !Ended(s) }

  ghost predicate Fits(b: Option<Window>, cap: nat)
  {
    b.Some? ==> b.value.Valid() && b.value.cap == cap
  }

  /** `mask_gen_.next()`: any key. */
  method NextKey() returns (key: seq<byte>)
    ensures |key| == 4
  {
    var a: byte, b: byte, c: byte, d: byte := *, *, *, *;
    key := [a, b, c, d];
  }

  /** One more frame with this opcode and payload, under some key. */
  ghost predicate Enqueued(before: seq<OutFrame>, after: seq<OutFrame>, opcode: Opcode, payload: seq<byte>)
  {
    && |after| == |before| + 1 && after[..|before|] == before
    && after[|before|].opcode == opcode && after[|before|].payload == payload
  }

  lemma CanSend(f: OutFrame)
    requires |f.key| == 4 && |f.payload| < MAX_LENGTH && (IsControl(f.opcode) ==> |f.payload| <= 125)
    ensures Sendable(f)
  {
  }

  /** Payload first, masked in place; then the header, written backwards into the reserved space. */
  method BuildFrame(b: Window, f: OutFrame) returns (w: Window)
    requires b.Valid() && b.bytes == [] && b.head == ClientHeaderSize(|f.payload|)
    requires |f.payload| <= b.Tailroom() && Sendable(f)
    ensures w.id == b.id && Item(w, 0).Valid(b.cap) && w.bytes == FrameBytes(f)
  {
    hide Encode, Masked;
    var header := Header(true, f.opcode, |f.payload|, Some(f.key));
    EncodeShape(header);
    BuildBackwards(b, f.payload, Masked(f.payload, f.key, 0), Encode(header));
    w := b.Append(f.payload);
    w := w.(bytes := Masked(w.bytes, f.key, 0));
    w := w.Prepend(Encode(header));
  }

  /** The header, and whether the whole frame is there. */
  method ReadFront(buf: seq<byte>) returns (front: Front)
    ensures front == FrontOf(buf)
  {
    hide Parse;
    var v := ParseHeader(buf);
    match v {
      case NeedMore => return Front.Incomplete;
      case Violation => return Broken;
      case Parsed(h, n) =>
        if |buf| < n + h.length {
          return Front.Incomplete;
        }
        return Whole(Frame(h, buf[n..n + h.length]), n + h.length);
    }
  }

  lemma NoFrameYet()
    ensures FrontOf([]).Incomplete?
  {
  }

  lemma PingIsShort(buf: seq<byte>)
    requires FrontOf(buf).Whole? && IsControl(FrontOf(buf).frame.header.opcode)
    ensures |FrontOf(buf).frame.payload| <= 125
  {
    hide FrontOf;
    FrontIsRaw(buf);
  }

  class Session {
    const pool: Pool
    const transport: Transport
    const clock: Clock
    const oracle: Oracle
    const cfg: Config

    var state: State
    var recv: Option<Window>
    var frag: Option<Window>
    var fragOpcode: Opcode

    var slots: seq<Slot>
    var head: nat
    var count: nat

    var nextPingAt: int
    var pongDeadline: int
    var awaitingPong: bool

    var autoReconnect: bool
    var reconnectDelay: int
    var reconnectAt: int
    var connectDeadline: int

    /** What the callback calls on the next messages; anything once this is used up. */
    var script: seq<seq<Call>>

    // The books.
    ghost const others: set<nat>
    ghost var upgrade: seq<byte>
    ghost var sent: seq<OutFrame>
    ghost var tried: seq<Message>
    ghost var rx: Received
    ghost var trail: seq<State>
    ghost var beats: seq<Beat>
    ghost var attempts: nat

    // ----- Invariants -----

    ghost function Q(): seq<Item>
      requires Live(slots, head, count)
      reads this`slots, this`head, this`count
    {
      Queue(slots, head, count)
    }

    ghost predicate RingOk()
      reads this`slots, this`head, this`count
    {
      Live(slots, head, count) && AllValid(Q(), pool.cap) && 64 <= pool.cap < MAX_LENGTH
    }

    ghost predicate BuffersOk()
      requires RingOk()
      reads this`slots, this`head, this`count, this`recv, this`frag, pool
    {
      Fits(recv, pool.cap) && Fits(frag, pool.cap) && Owns(pool.held, others, recv, frag, Q())
    }

    ghost predicate TimersOk()
      reads this`reconnectDelay, this`attempts, this`nextPingAt, this`awaitingPong, this`beats
    {
      && reconnectDelay == Backoff(attempts)
      && Spaced(beats, cfg.pingInterval, nextPingAt)
      && Alternate(beats, awaitingPong)
    }

    /** Nothing on this connection is lost or out of order between `enqueue_frame` and the transport. */
    ghost predicate Current()
      reads this`slots, this`head, this`count, this`upgrade, this`sent, transport`open, transport`accepted
    {
      RingOk() && (transport.open ==> Exact(transport.accepted, upgrade, sent, Q(), pool.cap))
    }

    ghost predicate Base()
      reads this`slots, this`head, this`count, this`recv, this`frag, this`reconnectDelay, this`attempts,
        this`nextPingAt, this`awaitingPong, this`beats, this`trail, this`state, this`upgrade, this`sent
      reads pool, transport`accepted
    {
      && RingOk() && BuffersOk() && TimersOk() && Trail(trail, state)
      && Prefixed(transport.accepted, upgrade, sent)
    }

    /** Nothing is pending unless the transport took less than it was offered last. */
    ghost predicate Flushed()
      reads this`count, transport`tries
    {
      count == 0 || transport.TookLess()
    }

    ghost predicate Core()
      reads this`slots, this`head, this`count, this`recv, this`frag, this`reconnectDelay, this`attempts,
        this`nextPingAt, this`awaitingPong, this`beats, this`trail, this`state, this`upgrade, this`sent, this`rx
      reads pool, transport`open, transport`accepted, transport`tries
    {
      Base() && (IsLive(state) ==> Current()) && (state.Open? ==> rx.drop.None?) && Flushed()
    }

    ghost function Request(): seq<byte>
    {
      HttpRequest.UpgradeRequest(cfg.host, cfg.path, cfg.secKey)
    }

    ghost predicate FreshOk()
      reads this`recv, this`frag, this`count, this`upgrade, this`sent, this`tried, this`rx
      reads transport`open, transport`accepted, transport`inbound
    {
      && recv.Some? && recv.value.bytes == [] && recv.value.head == 0 && frag.None? && count == 0
      && upgrade == [] && sent == [] && tried == [] && rx == NOTHING
      && transport.open && transport.accepted == [] && transport.inbound == []
    }

    ghost predicate UpgradingOk()
      reads this`recv, this`frag, this`upgrade, this`sent, this`rx, transport`inbound
    {
      && recv.Some? && recv.value.bytes == transport.inbound && recv.value.head == 0 && frag.None?
      && upgrade == Request() && sent == [] && rx == NOTHING
    }

    ghost predicate ReadingOk()
      reads this`recv, this`frag, this`fragOpcode, this`upgrade, this`rx, transport`inbound, transport`open
    {
      && recv.Some? && recv.value.head == 0
      && Attached(rx, transport.inbound, recv.value.bytes, frag, fragOpcode)
      && FrontOf(recv.value.bytes).Incomplete?
      && (rx.drop.Some? ==> !transport.open)
      && upgrade == Request()
    }

    ghost predicate PhaseOk()
      reads this`state, this`recv, this`frag, this`fragOpcode, this`count, this`upgrade, this`sent, this`tried,
        this`rx
      reads transport`open, transport`accepted, transport`inbound
    {
      match state
      case Connecting => FreshOk()
      case Upgrading => UpgradingOk()
      case Open => ReadingOk()
      case Closing => ReadingOk()
      case _ => true
    }

    ghost predicate Valid()
      reads this`slots, this`head, this`count, this`recv, this`frag, this`fragOpcode, this`reconnectDelay,
        this`attempts, this`nextPingAt, this`awaitingPong, this`beats, this`trail, this`state, this`upgrade, this`sent,
        this`tried, this`rx
      reads pool, transport`open, transport`accepted, transport`inbound, transport`tries
    {
      Core() && Sound(rx, transport.inbound, cfg.expected) && Replied() && PhaseOk()
    }

    /** Valid, but perhaps with something to write. */
    ghost predicate ValidUnflushed()
      reads this`slots, this`head, this`count, this`recv, this`frag, this`fragOpcode, this`reconnectDelay,
        this`attempts, this`nextPingAt, this`awaitingPong, this`beats, this`trail, this`state, this`upgrade, this`sent,
        this`tried, this`rx
      reads pool, transport`open, transport`accepted, transport`inbound
    {
      && Base() && (IsLive(state) ==> Current()) && (state.Open? ==> rx.drop.None?)
      && Sound(rx, transport.inbound, cfg.expected) && Replied() && PhaseOk()
    }

    /** Every Ping processed on this connection was to be answered, once, in order and with its payload; the
        heartbeat heard its Pongs. */
    ghost predicate Replied()
      reads this`tried, this`rx, this`beats
    {
      Replies(tried) == Pinged(rx.frames) && Heards(beats) == Pongs(rx.frames)
    }

    ghost function Now(): Snapshot
      reads this`state, this`frag, this`rx, transport`open
    {
      Snapshot(state, frag, transport.open, rx)
    }

    // ----- Construction and state -----

    constructor (pool: Pool, transport: Transport, clock: Clock, oracle: Oracle, cfg: Config,
      script: seq<seq<Call>>)
      requires 0 < pool.cap < MAX_LENGTH && pool.cap % 64 == 0
      requires !transport.open && transport.accepted == [] && transport.inbound == []
      ensures Valid() && state == Disconnected
      ensures this.pool == pool && this.transport == transport && this.clock == clock && this.oracle == oracle
      ensures this.cfg == cfg && this.script == script && !autoReconnect
    {
      this.pool, this.transport, this.clock, this.oracle := pool, transport, clock, oracle;
      this.cfg, this.script := cfg, script;
      state, recv, frag, fragOpcode := Disconnected, None, None, Text;
      slots, head, count := seq(MAX_PENDING, _ => Slot(None, 0)), 0, 0;
      nextPingAt, pongDeadline, awaitingPong := 0, 0, false;
      autoReconnect, reconnectDelay, reconnectAt, connectDeadline := false, 0, 0, 0;
      others, upgrade, sent, tried, rx := pool.held, [], [], [], NOTHING;
      trail, beats, attempts := [Disconnected], [], 0;
      new;
      Starts();
    }

    lemma Starts()
      requires 64 <= pool.cap < MAX_LENGTH && |slots| == MAX_PENDING && head == 0 && count == 0
      requires recv.None? && frag.None? && pool.held == others
      requires transport.accepted == [] && upgrade == [] && sent == [] && tried == [] && rx == NOTHING
      requires state.Disconnected? && trail == [state]
      requires reconnectDelay == 0 && attempts == 0 && beats == [] && !awaitingPong
      ensures Valid()
    {
      hide Sound, Owns, Live, Queue, Spaced, Alternate, Prefixed, Trail;
      SoundNothing(transport.inbound, cfg.expected);
      TrailStarts(state);
      EmptyRing(slots);
      NothingSent(Q(), pool.cap);
      OwnsNothing(pool.held, others, Q());
      NoBeats(cfg.pingInterval, nextPingAt, awaitingPong);
    }

    /** `set_auto_reconnect`. */
    method SetAutoReconnect(on: bool)
      requires Valid()
      modifies this`autoReconnect
      ensures Valid() && autoReconnect == on
    {
      hide Valid;
      autoReconnect := on;
    }

    method SetState(s: State)
      requires Base() && (s == state || Allowed(state, s))
      modifies this`state, this`trail
      ensures Base() && (old(Current()) ==> Current()) && state == s
      ensures old(trail) <= trail
    {
      hide RingOk, BuffersOk, TimersOk, Trail, Prefixed, Current;
      if s == state {
        return;
      }
      TrailGrows(trail, state, s);
      state := s;
      trail := trail + [s];
    }

    // ----- Buffers -----

    method PushPending(b: Window) returns (ok: bool)
      requires RingOk() && Item(b, 0).Valid(pool.cap)
      modifies this`slots, this`count
      ensures RingOk()
      ensures ok <==> old(count) < MAX_PENDING
      ensures Q() == if ok then old(Q()) + [Item(b, 0)] else old(Q())
      ensures !ok ==> slots == old(slots) && count == old(count)
    {
      hide Live, Queue;
      LiveBounds(slots, head, count);
      if count >= MAX_PENDING {
        return false;
      }
      QueuePush(slots, head, count, b);
      slots := slots[At(head, count) := Slot(Some(b), 0)];
      count := count + 1;
      return true;
    }

    /** Drops the front buffer and returns it to the pool. */
    method PopPending()
      requires RingOk() && BuffersOk() && count > 0
      modifies this`slots, this`head, this`count, pool`held
      ensures RingOk() && BuffersOk()
      ensures count == old(count) - 1 && Q() == old(Q())[1..]
    {
      hide Live, Queue, Owns, Fits;
      LiveBounds(slots, head, count);
      FrontSlot(slots, head, count);
      OwnsPop(pool.held, others, recv, frag, Q());
      QueuePop(slots, head, count, Slot(None, slots[head].sent));
      pool.Release(slots[head].buf.value);
      slots := slots[head := Slot(None, slots[head].sent)];
      head, count := At(head, 1), count - 1;
    }

    method DrainPending()
      requires RingOk() && BuffersOk()
      modifies this`slots, this`head, this`count, pool`held
      ensures RingOk() && BuffersOk() && count == 0
    {
      hide RingOk, BuffersOk;
      while count > 0
        invariant RingOk() && BuffersOk()
        decreases count
      {
        PopPending();
      }
    }

    method ReleaseFrag()
      requires RingOk() && BuffersOk()
      modifies this`frag, pool`held
      ensures RingOk() && BuffersOk() && frag.None?
    {
      hide Live, Queue, Owns, AllValid;
      if frag.Some? {
        OwnsFragOut(pool.held, others, recv, frag.value, Q());
        pool.Release(frag.value);
        frag := None;
      }
    }

    method ReleaseRecv()
      requires RingOk() && BuffersOk()
      modifies this`recv, pool`held
      ensures RingOk() && BuffersOk() && recv.None?
    {
      hide Live, Queue, Owns, AllValid;
      if recv.Some? {
        OwnsRecvOut(pool.held, others, recv.value, frag, Q());
        pool.Release(recv.value);
        recv := None;
      }
    }

    /** Everything the session held goes back to the pool, and nothing else. */
    method ReleaseBuffers()
      requires RingOk() && BuffersOk()
      modifies this`slots, this`head, this`count, this`recv, this`frag, pool`held
      ensures RingOk() && BuffersOk() && count == 0 && recv.None? && frag.None?
      ensures pool.held == others
    {
      hide Live, Queue, Owns, AllValid;
      DrainPending();
      ReleaseRecv();
      ReleaseFrag();
      OwnsNothing(pool.held, others, Q());
    }

    method Teardown(next: State)
      requires Base() && Ended(next)
      modifies this`state, this`trail, this`slots, this`head, this`count, this`frag, this`reconnectAt
      modifies transport`open, pool`held, clock
      ensures old(clock.now) <= clock.now
      ensures autoReconnect ==> reconnectAt == clock.now + reconnectDelay
      ensures Core() && Current() && state == next && !transport.open && frag.None? && count == 0
    {
      hide RingOk, BuffersOk, TimersOk, Trail, Prefixed;
      transport.Close();
      DrainPending();
      ReleaseFrag();
      if autoReconnect {
        var now := clock.Now();
        reconnectAt := now + reconnectDelay;
      }
      SetState(next);
    }

    /** `teardown`, seen from outside. */
    method End(next: State)
      requires Valid() && Ended(next)
      modifies this`state, this`trail, this`slots, this`head, this`count, this`frag, this`reconnectAt
      modifies transport`open, pool`held, clock
      ensures old(clock.now) <= clock.now
      ensures Valid() && Current() && state == next
    {
      hide RingOk, BuffersOk, TimersOk, Trail, Prefixed, Current, Sound, FreshOk, UpgradingOk, ReadingOk, Replied;
      Teardown(next);
    }

    /** `teardown` after a failure while a frame is processed. */
    method Abort()
      requires Core()
      modifies this`state, this`trail, this`slots, this`head, this`count, this`frag, this`reconnectAt
      modifies transport`open, pool`held, clock
      ensures old(clock.now) <= clock.now
      ensures Core() && Current() && state.Failed?
    {
      hide Base, Current;
      CoreMeans();
      Teardown(Failed);
    }

    lemma ValidMeans()
      requires Valid()
      ensures Core() && ValidUnflushed() && Base() && (IsLive(state) ==> Current()) && (state.Open? ==> rx.drop.None?)
    {
      hide Base, Current, Sound, PhaseOk, Replied;
    }

    lemma CoreMeans()
      requires Core()
      ensures Base() && RingOk() && BuffersOk() && TimersOk()
    {
      hide RingOk, BuffersOk, TimersOk, Trail, Prefixed, Current;
    }

    lemma RingBounds()
      requires Core()
      ensures count <= MAX_PENDING && 64 <= pool.cap
    {
      LiveBounds(slots, head, count);
    }

    lemma RecvFits()
      requires Core()
      ensures Fits(recv, pool.cap)
    {
      hide RingOk, TimersOk, Trail, Prefixed, Current;
    }

    lemma FragFits()
      requires Core()
      ensures Fits(frag, pool.cap)
    {
      hide RingOk, TimersOk, Trail, Prefixed, Current;
    }

    method ReplaceRecv(w: Window)
      requires Core() && recv.Some? && w.Valid() && w.id == recv.value.id && w.cap == recv.value.cap
      modifies this`recv
      ensures Core() && (old(Current()) ==> Current()) && recv == Some(w)
    {
      hide Live, Queue, AllValid, Owns, TimersOk, Trail, Prefixed, Exact;
      OwnsSameIds(pool.held, others, recv, frag, Q(), Some(w), frag);
      recv := Some(w);
    }

    method ReplaceFrag(w: Window)
      requires Core() && Current() && frag.Some? && w.Valid() && w.id == frag.value.id && w.cap == frag.value.cap
      modifies this`frag
      ensures Core() && Current() && frag == Some(w)
    {
      hide Live, Queue, AllValid, Owns, TimersOk, Trail, Prefixed, Exact;
      OwnsSameIds(pool.held, others, recv, frag, Q(), recv, Some(w));
      frag := Some(w);
    }

    method DropFrag()
      requires Core() && Current()
      modifies this`frag, pool`held
      ensures Core() && Current() && frag.None?
    {
      hide RingOk, BuffersOk, TimersOk, Trail, Prefixed, Current;
      ReleaseFrag();
    }

    ghost method Count(next: Received)
      requires Core() && Current() && next.drop == rx.drop
      modifies this`rx
      ensures Core() && Current() && rx == next
    {
      hide RingOk, BuffersOk, TimersOk, Trail, Prefixed, Current;
      rx := next;
    }

    // ----- Sending -----

    /** What is left to write of the front buffer. */
    ghost function FrontRest(): seq<byte>
      reads this`slots, this`head, this`count
    {
      if RingOk() && Q() != [] then FrontValid(Q(), pool.cap); Q()[0].Rest() else []
    }

    /** The first write since `before` offered `bytes`. */
    ghost predicate Offered(before: seq<Attempt>, bytes: seq<byte>)
      reads transport`tries
    {
      before < transport.tries && transport.tries[|before|].offered == bytes
    }

    /** The environment is about to answer a write with an error. */
    ghost predicate NextWriteFails()
      reads oracle
    {
      oracle.wishes != [] && IsError(oracle.wishes[0])
    }

    /** The environment is about to hand out a buffer. */
    ghost predicate NextGranted()
      reads oracle
    {
      oracle.grants != [] && oracle.grants[0]
    }

    /** The next frame that fits is queued and then fails to be written. */
    ghost predicate Doomed()
      reads this`count, oracle
    {
      count < MAX_PENDING && NextGranted() && NextWriteFails()
    }

    /** Writes what the transport takes of the front buffer, and releases it when it is written wholly. */
    method WriteFront() returns (w: Written)
      requires Base() && Current() && count > 0
      modifies this`slots, this`head, this`count, transport`accepted, transport`tries, pool`held, oracle`wishes
      ensures w.Refused? || w.Partly? ==> transport.TookLess()
      ensures |transport.tries| == |old(transport.tries)| + 1 && Offered(old(transport.tries), old(FrontRest()))
      ensures w.Broke? ==> IsError(transport.tries[|old(transport.tries)|].result)
      ensures w.Wholly? ==> transport.open
      ensures old(NextWriteFails()) ==> w.Broke?
      ensures Base() && Current()
      ensures count == if w.Wholly? then old(count) - 1 else old(count)
    {
      hide Live, Queue, Owns, AllValid, Exact, Prefixed, TimersOk, Trail, Fits;
      LiveBounds(slots, head, count);
      FrontSlot(slots, head, count);
      ghost var q, was := Q(), transport.accepted;
      FrontValid(q, pool.cap);
      var p := slots[head];
      var b := p.buf.value;
      var wish := oracle.Wish();
      var n := transport.Write(b.bytes[p.sent..], wish);
      if n == -EAGAIN {
        return Refused;
      }
      if n < 0 {
        return Broke;
      }
      ExactWrite(was, upgrade, sent, q, pool.cap, n);
      if p.sent + n < |b.bytes| {
        QueueSend(slots, head, count, b, p.sent + n);
        OwnsSend(pool.held, others, recv, frag, q, p.sent + n);
        slots := slots[head := Slot(Some(b), p.sent + n)];
        ExactIsValid(transport.accepted, upgrade, sent, Q(), pool.cap);
        w := Partly;
      } else {
        PopPending();
        w := Wholly;
      }
      ExactIsPrefixed(transport.accepted, upgrade, sent, Q(), pool.cap);
    }

    /** The session ended because a write failed, or because it was closing and everything is written. */
    ghost predicate Finished(was: State)
      reads this`state, this`upgrade, this`sent, transport`tries, transport`accepted
    {
      if state.Failed? then transport.tries != [] && IsError(transport.tries[|transport.tries| - 1].result)
      else was.Closing? && AllSendable(sent) && transport.accepted == upgrade + FrameStream(sent)
    }

    lemma AllWritten()
      requires Current() && transport.open && count == 0
      ensures AllSendable(sent) && transport.accepted == upgrade + FrameStream(sent)
    {
      hide Live, Queue, FrameStream, AllSendable;
      NothingQueued(slots, head);
      assert transport.accepted + [] == transport.accepted;
    }

    /** An earlier offer is still the first. */
    lemma StillOffered(before: seq<Attempt>, bytes: seq<byte>, mid: seq<Attempt>)
      requires before <= mid <= transport.tries
      requires mid != before ==> mid[|before|].offered == bytes
      requires mid == before ==> Offered(before, bytes)
      ensures Offered(before, bytes)
    {
    }

    /** One write of the front buffer, and what follows from it; `more` to go on. */
    method FlushOne() returns (more: bool)
      requires Base() && Current() && count > 0 && !state.Connecting?
      modifies this`state, this`trail, this`slots, this`head, this`count, this`frag, this`reconnectAt
      modifies transport`open, transport`accepted, transport`tries, pool`held, oracle`wishes, clock
      ensures old(clock.now) <= clock.now && old(transport.tries) < transport.tries
      ensures Offered(old(transport.tries), old(FrontRest()))
      ensures Base() && Current() && (more || Flushed())
      ensures more ==> Now() == old(Now()) && count == old(count) - 1 && (state.Closing? ==> count > 0)
      ensures !more ==> (Now() == old(Now()) && count > 0) || (Ended(state) && !transport.open && frag.None?)
      ensures Now() != old(Now()) ==> Finished(old(state))
      ensures old(NextWriteFails()) ==> !more && Ended(state)
    {
      hide Base, Current, FrontRest, FrameStream, AllSendable;
      var w := WriteFront();
      if w.Broke? {
        Teardown(Failed);
        return false;
      }
      if !w.Wholly? {
        return false;
      }
      if state.Closing? && count == 0 {
        AllWritten();
        Teardown(Disconnected);
        return false;
      }
      return true;
    }

    /** Writes as much as the transport takes. */
    method FlushPending()
      requires Base() && Current() && !state.Connecting? && (state.Open? ==> rx.drop.None?)
      modifies this`state, this`trail, this`slots, this`head, this`count, this`frag, this`reconnectAt
      modifies transport`open, transport`accepted, transport`tries, pool`held, oracle, clock
      ensures old(clock.now) <= clock.now && old(transport.tries) <= transport.tries
      ensures Core() && Current()
      ensures old(count) > 0 ==> Offered(old(transport.tries), old(FrontRest()))
      ensures old(count) > 0 && state.Closing? ==> count > 0
      ensures Now() != old(Now()) ==> Finished(old(state))
      ensures Now() == old(Now()) || (Ended(state) && !transport.open && frag.None?)
      ensures old(ValidUnflushed()) ==> Valid()
      ensures old(count) > 0 && old(NextWriteFails()) ==> Ended(state)
    {
      hide Base, Current, Sound, UpgradingOk, ReadingOk, Replied, FrontRest, Finished;
      while count > 0
        invariant Base() && Current() && (old(count) > 0 && state.Closing? ==> count > 0)
        invariant Now() == old(Now()) && old(clock.now) <= clock.now
        invariant if transport.tries == old(transport.tries)
          then count == old(count) && FrontRest() == old(FrontRest()) && oracle.wishes == old(oracle.wishes)
          else !old(NextWriteFails()) && Offered(old(transport.tries), old(FrontRest()))
        decreases count
      {
        ghost var mid := transport.tries;
        var more := FlushOne();
        StillOffered(old(transport.tries), old(FrontRest()), mid);
        if !more {
          return;
        }
      }
    }

    /** What becomes of a frame with this payload when `pending` are queued and the pool has a buffer, or not. */
    function Verdict(payload: seq<byte>, pending: nat, granted: bool): SendStatus
    {
      if !granted then WouldBlock
      else if ClientHeaderSize(|payload|) + |payload| > pool.cap then TooLarge
      else if pending >= MAX_PENDING then WouldBlock
      else Ok
    }

    /** The frame, masked, in a buffer of its own. */
    method MakeFrame(opcode: Opcode, payload: seq<byte>) returns (r: Made)
      requires 64 <= pool.cap < MAX_LENGTH && (IsControl(opcode) ==> |payload| <= 125)
      modifies pool`held, oracle`grants
      ensures r.Made? ==>
        var f, w := r.frame, r.buf;
        && f.opcode == opcode && f.payload == payload && Sendable(f)
        && Item(w, 0).Valid(pool.cap) && w.bytes == FrameBytes(f)
        && w.id !in old(pool.held) && pool.held == old(pool.held) + {w.id}
      ensures r.Unmade? ==> pool.held == old(pool.held) && (r.why.WouldBlock? || r.why.TooLarge?)
      ensures r == Unmade(TooLarge) ==> ClientHeaderSize(|payload|) + |payload| > pool.cap
      ensures old(oracle.grants) != [] ==>
        var status := Verdict(payload, 0, old(oracle.grants)[0]);
        if status == Ok then r.Made? else r == Unmade(status)
    {
      hide FrameBytes, Sendable;
      var hsize := ClientHeaderSize(|payload|);
      var grant := oracle.Grant();
      var got := pool.Acquire(hsize, grant);
      if got.None? {
        return Unmade(WouldBlock);
      }
      var b := got.value;
      if |payload| > b.Tailroom() {
        pool.Release(b);
        return Unmade(TooLarge);
      }
      var key := NextKey();
      var f := OutFrame(opcode, payload, key);
      assert Sendable(f) by { CanSend(f); }
      var w := BuildFrame(b, f);
      return Made(f, w);
    }

    /** The queued frame enters the books. */
    ghost method Enlist(q: seq<Item>, f: OutFrame, w: Window)
      requires RingOk() && Q() == q + [Item(w, 0)] && Sendable(f) && w.bytes == FrameBytes(f)
      requires Item(w, 0).Valid(pool.cap) && Prefixed(transport.accepted, upgrade, sent)
      requires transport.open ==> Exact(transport.accepted, upgrade, sent, q, pool.cap)
      modifies this`sent
      ensures sent == old(sent) + [f] && Current() && Prefixed(transport.accepted, upgrade, sent)
    {
      hide Live, Queue, AllValid, Exact, Prefixed, FrameBytes, Sendable;
      PrefixedPush(transport.accepted, upgrade, sent, f);
      if transport.open {
        ExactPush(transport.accepted, upgrade, sent, q, pool.cap, f, w);
      }
      sent := sent + [f];
    }

    /** Queues the frame.  A refused frame leaves no trace. */
    method QueueFrame(opcode: Opcode, payload: seq<byte>) returns (status: SendStatus)
      requires Base() && Current()
      requires IsControl(opcode) ==> |payload| <= 125
      modifies this`slots, this`count, this`sent, pool`held, oracle`grants
      ensures Base() && Current()
      ensures count == if status == Ok then old(count) + 1 else old(count)
      ensures old(oracle.grants) != [] ==> status == Verdict(payload, old(count), old(oracle.grants)[0])
      ensures status == Ok ==> Enqueued(old(sent), sent, opcode, payload)
      ensures status != Ok ==> sent == old(sent) && pool.held == old(pool.held)
      ensures status != NotOpen
      ensures status == TooLarge ==> ClientHeaderSize(|payload|) + |payload| > pool.cap
    {
      hide Live, Queue, Owns, AllValid, Exact, Prefixed, TimersOk, Trail, Fits, FrameBytes, Sendable;
      var r := MakeFrame(opcode, payload);
      if r.Unmade? {
        return r.why;
      }
      var ok := PushPending(r.buf);
      if !ok {
        pool.Release(r.buf);
        assert pool.held == old(pool.held);
        return WouldBlock;
      }
      OwnsPush(old(pool.held), others, recv, frag, old(Q()), r.buf);
      Enlist(old(Q()), r.frame, r.buf);
      return Ok;
    }

    /** `enqueue_frame`: queues the frame and writes what the transport takes. */
    method EnqueueFrame(opcode: Opcode, payload: seq<byte>) returns (status: SendStatus)
      requires Core() && Current() && !state.Connecting? && !state.Upgrading?
      requires IsControl(opcode) ==> |payload| <= 125
      modifies this`state, this`trail, this`slots, this`head, this`count, this`frag, this`sent, this`tried,
        this`reconnectAt
      modifies transport`open, transport`accepted, transport`tries, pool`held, oracle, clock
      ensures old(clock.now) <= clock.now && old(transport.tries) <= transport.tries
      ensures tried == old(tried) + [Message(opcode, payload)]
      ensures Core() && Current()
      ensures Now() == old(Now()) || (Ended(state) && !transport.open && frag.None?)
      ensures old(Valid()) && !opcode.Pong? ==> Valid()
      ensures old(Doomed()) && ClientHeaderSize(|payload|) + |payload| <= pool.cap ==> Ended(state)
      ensures status != NotOpen
      ensures old(oracle.grants) != [] ==> status == Verdict(payload, old(count), old(oracle.grants)[0])
      ensures status == Ok ==> Enqueued(old(sent), sent, opcode, payload)
      ensures status != Ok ==> Refuses(old(Now()), old(sent), old(transport.accepted), old(pool.held))
      ensures status == TooLarge ==> ClientHeaderSize(|payload|) + |payload| > pool.cap
    {
      hide Base, Current, Sound, UpgradingOk, ReadingOk, Replies, Pinged, Pongs, Heards, FrontRest, Finished,
        Enqueued;
      RepliesSnoc(tried, Message(opcode, payload));
      tried := tried + [Message(opcode, payload)];
      status := QueueFrame(opcode, payload);
      if status == Ok {
        FlushPending();
      }
    }

    ghost predicate Refuses(was: Snapshot, sent0: seq<OutFrame>, accepted0: seq<byte>, held0: set<nat>)
      reads this, transport, pool
    {
      Now() == was && sent == sent0 && transport.accepted == accepted0 && pool.held == held0
    }

    // ----- The calls of the application -----

    /** `send`. */
    method Send(payload: seq<byte>, binary: bool) returns (status: SendStatus)
      requires Core()
      modifies this`state, this`trail, this`slots, this`head, this`count, this`frag, this`sent, this`tried,
        this`reconnectAt
      modifies transport`open, transport`accepted, transport`tries, pool`held, oracle, clock
      ensures old(clock.now) <= clock.now && old(transport.tries) <= transport.tries
      ensures Core() && (old(Current()) ==> Current())
      ensures tried == if old(state).Open? then old(tried) + [Message(if binary then Binary else Text,
        payload)] else old(tried)
      ensures Replies(tried) == old(Replies(tried))
      ensures After(old(Now()), Now())
      ensures old(Valid()) ==> Valid()
      ensures status == NotOpen <==> !old(state).Open?
      ensures old(state).Open? && old(oracle.grants) != [] ==>
        status == Verdict(payload, old(count), old(oracle.grants)[0])
      ensures status == Ok ==> Enqueued(old(sent), sent, if binary then Binary else Text, payload)
      ensures status != Ok ==> Refuses(old(Now()), old(sent), old(transport.accepted), old(pool.held))
      ensures status == TooLarge ==> ClientHeaderSize(|payload|) + |payload| > pool.cap
    {
      hide Base, Current, Sound, PhaseOk, Replies;
      if !state.Open? {
        return NotOpen;
      }
      RepliesSnoc(tried, Message(if binary then Binary else Text, payload));
      status := EnqueueFrame(if binary then Binary else Text, payload);
    }

    /** An open session that is closed but cannot write its Close frame. */
    ghost function Dropped(a: Snapshot): Snapshot
    {
      Snapshot(Closing, None, false, a.rx.(drop := Some(|a.rx.frames|)))
    }

    method TurnClosing()
      requires Core() && Current() && (state.Open? || Ended(state)) && rx.drop.None?
      modifies this`state, this`trail, this`rx
      ensures Core() && Current() && state.Closing?
      ensures rx == if Ended(old(state)) then old(rx).(drop := Some(|old(rx).frames|)) else old(rx)
    {
      hide RingOk, BuffersOk, TimersOk, Trail, Prefixed, Current;
      if Ended(state) {
        rx := rx.(drop := Some(|rx.frames|));
      }
      SetState(Closing);
    }

    lemma OpenKeepsAll()
      requires Core() && state.Open?
      ensures Current() && rx.drop.None?
    {
      hide Base, Current;
    }

    /** Closing an open session: even when writing the Close frame tears it down, it ends as Closing. */
    method CloseOpen(code: Code)
      requires Core() && state.Open?
      modifies this`state, this`trail, this`slots, this`head, this`count, this`frag, this`sent, this`tried,
        this`reconnectAt
      modifies this`rx
      modifies transport`open, transport`accepted, transport`tries, pool`held, oracle, clock
      ensures old(clock.now) <= clock.now && old(transport.tries) <= transport.tries
      ensures tried == old(tried) + [Message(Opcode.Close, [code / 256, code % 256])]
      ensures Replies(tried) == old(Replies(tried))
      ensures Core() && Current() && state.Closing?
      ensures After(old(Now()), Now())
      ensures old(Valid()) ==> Valid()
      ensures old(Doomed()) ==> Now() == Dropped(old(Now()))
    {
      hide Core, Base, Current, Sound, FreshOk, UpgradingOk, ReadingOk, Assembled, Replies, Pinged, Pongs, Heards,
        Enqueued, Refuses, FrontRest;
      RingBounds();
      OpenKeepsAll();
      RepliesSnoc(tried, Message(Opcode.Close, [code / 256, code % 256]));
      var _ := EnqueueFrame(Opcode.Close, [code / 256, code % 256]);
      TurnClosing();
      if old(Valid()) {
        StillReading();
      }
    }

    /** `close`. */
    method Close(code: Code)
      requires Core()
      modifies this`state, this`trail, this`slots, this`head, this`count, this`frag, this`sent, this`tried,
        this`reconnectAt
      modifies this`autoReconnect, this`rx
      modifies transport`open, transport`accepted, transport`tries, pool`held, oracle, clock
      ensures old(clock.now) <= clock.now && old(transport.tries) <= transport.tries
      ensures tried == if old(state).Open? then old(tried) + [Message(Opcode.Close, [code / 256,
        code % 256])] else old(tried)
      ensures Replies(tried) == old(Replies(tried))
      ensures Core() && Current()
      ensures After(old(Now()), Now())
      ensures old(Valid()) ==> Valid()
      ensures !autoReconnect && state == if old(state).Open? then Closing else Disconnected
      ensures old(state).Open? && old(Doomed()) ==> Now() == Dropped(old(Now()))
    {
      hide RingOk, BuffersOk, TimersOk, Trail, Prefixed, Current, Sound, ReadingOk, Assembled, Replies;
      autoReconnect := false;
      if state.Open? {
        CloseOpen(code);
      } else {
        Teardown(Disconnected);
      }
    }

    /** Whatever `send` and `close` do, a session that still reads is in step with its stream. */
    twostate lemma StillReading()
      requires old(ReadingOk()) && After(old(Now()), Now()) && Reading(state)
      requires old(Sound(rx, transport.inbound, cfg.expected))
      requires recv == old(recv) && fragOpcode == old(fragOpcode) && upgrade == old(upgrade)
      requires transport.inbound == old(transport.inbound)
      ensures ReadingOk() && Sound(rx, transport.inbound, cfg.expected)
    {
      hide Sound, Attached, FrontOf, After, Request;
      AfterIsAttached(old(Now()), Now(), transport.inbound, recv.value.bytes, fragOpcode);
      AfterIsSound(old(Now()), Now(), transport.inbound, cfg.expected);
    }

    /** One call of the callback. */
    method OneCall(c: Call)
      requires Core() && Current()
      modifies this`state, this`trail, this`slots, this`head, this`count, this`frag, this`sent, this`tried,
        this`reconnectAt
      modifies this`autoReconnect, this`rx
      modifies transport`open, transport`accepted, transport`tries, pool`held, oracle, clock
      ensures old(clock.now) <= clock.now && old(transport.tries) <= transport.tries
      ensures Replies(tried) == old(Replies(tried))
      ensures Core() && Current()
      ensures After(old(Now()), Now())
      ensures tried == old(tried) + if !old(state).Open? then [] else match c
        case CallSend(payload, binary) => [Message(if binary then Binary else Text, payload)]
        case CallClose(code) => [Message(Opcode.Close, [code / 256, code % 256])]
      ensures c.CallClose? ==> !autoReconnect && state == if old(state).Open? then Closing else Disconnected
      ensures c.CallClose? && old(state).Open? && old(Doomed()) ==> Now() == Dropped(old(Now()))
    {
      hide Base, Current, Sound, PhaseOk, After, Replies, Enqueued, Refuses;
      match c {
        case CallSend(payload, binary) => var _ := Send(payload, binary);
        case CallClose(code) => Close(code);
      }
    }

    /** The calls of one callback, one after the other. */
    method RunCalls(calls: seq<Call>)
      requires Core() && Current()
      modifies this`state, this`trail, this`slots, this`head, this`count, this`frag, this`sent, this`tried,
        this`reconnectAt
      modifies this`autoReconnect, this`rx
      modifies transport`open, transport`accepted, transport`tries, pool`held, oracle, clock
      ensures old(clock.now) <= clock.now && old(transport.tries) <= transport.tries
      ensures Replies(tried) == old(Replies(tried))
      ensures Core() && Current()
      ensures After(old(Now()), Now())
      ensures calls == [] ==> Now() == old(Now()) && tried == old(tried) && autoReconnect == old(autoReconnect)
      ensures calls != [] && calls[|calls| - 1].CallClose? ==> !autoReconnect
      ensures |calls| == 1 && calls[0].CallClose? && old(state).Open? && old(Doomed()) ==> Now() == Dropped(old(Now()))
      decreases |calls|
    {
      hide RingOk, BuffersOk, TimersOk, Trail, Prefixed, Exact, After, Replies;
      AfterRefl(Now());
      if calls == [] {
        return;
      }
      OneCall(calls[0]);
      ghost var between := Now();
      RunCalls(calls[1..]);
      AfterTransitive(old(Now()), between, Now());
    }

    /** `deliver`: the callback may call `send` and `close` as often as it likes. */
    method Deliver(m: Message)
      requires Core() && Current()
      modifies this`state, this`trail, this`slots, this`head, this`count, this`frag, this`sent, this`tried,
        this`reconnectAt
      modifies this`autoReconnect, this`rx, this`script
      modifies transport`open, transport`accepted, transport`tries, pool`held, oracle, clock
      ensures old(clock.now) <= clock.now && old(transport.tries) <= transport.tries
      ensures Replies(tried) == old(Replies(tried))
      ensures Core() && Current()
      ensures After(Told(old(Now()), m), Now())
      ensures Follows(old(script), old(Doomed()), Told(old(Now()), m))
    {
      hide RingOk, BuffersOk, TimersOk, Trail, Prefixed, Exact, After, Replies;
      rx := rx.(delivered := rx.delivered + [m]);
      var calls: seq<Call>;
      if script == [] {
        calls := *;
      } else {
        calls, script := script[0], script[1..];
      }
      RunCalls(calls);
    }

    /** The callback is told `m`. */
    ghost function Told(a: Snapshot, m: Message): Snapshot
    {
      a.(rx := a.rx.(delivered := a.rx.delivered + [m]))
    }

    /** What a callback that does nothing, or closes a doomed session, leaves of `told`. */
    ghost predicate Follows(was: seq<seq<Call>>, doomed: bool, told: Snapshot)
      reads this`state, this`frag, this`rx, this`script, transport`open
    {
      was != [] ==>
        && script == was[1..]
        && (was[0] == [] ==> Now() == told)
        && (|was[0]| == 1 && was[0][0].CallClose? && told.state.Open? && doomed ==> Now() == Dropped(told))
    }

    // ----- Receiving -----

    /** In step with the stream, with bytes to parse. */
    ghost predicate Parsing()
      reads this, pool, transport
    {
      && Core() && Current() && Reading(state) && recv.Some?
      && Sound(rx, transport.inbound, cfg.expected)
      && Attached(rx, transport.inbound, recv.value.bytes, frag, fragOpcode)
      && (rx.drop.Some? ==> !transport.open) && (Lossy(rx) ==> !Conforming(rx.frames))
      && upgrade == Request() && Replied()
    }

    ghost predicate AtFrame(f: Frame)
      reads this`recv
    {
      recv.Some? && FrontOf(recv.value.bytes).Whole? && FrontOf(recv.value.bytes).frame == f
    }

    /** The frame at the front, still in the buffer, has been processed - or the session has ended. */
    ghost predicate Dispatched()
      reads this, pool, transport
    {
      && Core() && Current() && recv.Some? && FrontOf(recv.value.bytes).Whole?
      && Sound(rx, transport.inbound, cfg.expected) && Replied()
      && (Reading(state) || Ended(state))
      && (Reading(state) ==>
            && Attached(rx, transport.inbound, recv.value.bytes[FrontOf(recv.value.bytes).size..], frag, fragOpcode)
            && (rx.drop.Some? ==> !transport.open) && (Lossy(rx) ==> !Conforming(rx.frames)))
    }

    /** What processing `f` does for certain: a whole message goes to the callback, and a continuation of nothing
        is skipped. */
    twostate predicate Foreseen(f: Frame)
      requires old(AtFrame(f))
      reads this`state, this`frag, this`rx, this`script, transport`open
    {
      && rx.answer == old(rx.answer)
      && (f.header.fin && StartsMessage(f) ==>
            Follows(old(script), old(Doomed()), Told(old(Counted(f)), Message(f.header.opcode, f.payload))))
      && (f.header.opcode.Continuation? && old(frag).None? ==> Now() == old(Counted(f)) && script == old(script))
    }

    /** The session once `f` counts as processed. */
    ghost function Counted(f: Frame): Snapshot
      requires AtFrame(f)
      reads this, transport
    {
      Now().(rx := Eaten(f))
    }

    ghost function Eaten(f: Frame): Received
      requires AtFrame(f)
      reads this`recv, this`rx
    {
      Ate(rx, recv.value.bytes[..FrontOf(recv.value.bytes).size], f)
    }

    method DispatchWhole(f: Frame)
      requires Parsing() && AtFrame(f) && f.header.fin && (f.header.opcode.Text? || f.header.opcode.Binary?)
      modifies this`state, this`trail, this`slots, this`head, this`count, this`frag, this`sent, this`tried,
        this`reconnectAt
      modifies this`autoReconnect, this`rx, this`script
      modifies transport`open, transport`accepted, transport`tries, pool`held, oracle, clock
      ensures old(clock.now) <= clock.now && old(transport.tries) <= transport.tries
      ensures Dispatched() && Foreseen(f)
    {
      hide Core, Base, Current, Sound, Attached, Assembled, Lossy, FrontOf, Conforming, After, Replies, Pinged, Pongs,
        Heards, Follows;
      var m := Message(f.header.opcode, f.payload);
      AttachedMeans(rx, transport.inbound, recv.value.bytes, frag, fragOpcode);
      AteIsAttached(rx, transport.inbound, cfg.expected, recv.value.bytes, frag, fragOpcode, [m], frag, fragOpcode);
      ConformingSnoc(rx.frames, f);
      FramesSnoc(rx.frames, f);
      Count(Eaten(f));
      ghost var a := Told(Now(), m);
      Deliver(m);
      Settle(a);
    }

    /** `append_fragment`; `next` are the books once this frame counts as processed. */
    method AppendFragment(chunk: seq<byte>, fin: bool, ghost next: Received)
      requires Core() && Current() && Reading(state) && next.drop == rx.drop && next.answer == rx.answer
      modifies this`state, this`trail, this`slots, this`head, this`count, this`frag, this`sent, this`tried,
        this`reconnectAt
      modifies this`autoReconnect, this`rx, this`script
      modifies transport`open, transport`accepted, transport`tries, pool`held, oracle, clock
      ensures old(clock.now) <= clock.now && old(transport.tries) <= transport.tries
      ensures Replies(tried) == old(Replies(tried))
      ensures Core() && Current() && rx.answer == old(rx.answer)
      ensures old(frag).None? ==> Now() == old(Now()).(rx := next) && script == old(script)
      ensures old(frag).Some? && |chunk| > old(frag).value.Tailroom() ==> state.Failed? && rx == old(rx)
      ensures old(frag).Some? && |chunk| <= old(frag).value.Tailroom() ==>
        var w := old(frag).value.Append(chunk);
        if fin then
          After(old(Now()).(frag := None, rx := next.(delivered := next.delivered + [Message(fragOpcode, w.bytes)])),
            Now())
        else Now() == old(Now()).(frag := Some(w), rx := next)
    {
      hide Core, Base, Current, After, Replies;
      if frag.None? {
        Count(next);
        return;
      }
      FragFits();
      if |chunk| > frag.value.Tailroom() {
        Abort();
        return;
      }
      var w := frag.value.Append(chunk);
      ReplaceFrag(w);
      Count(next);
      if fin {
        var m := Message(fragOpcode, w.bytes);
        ghost var a := Told(Now(), m);
        Deliver(m);
        AfterWithoutFrag(a, Now());
        DropFrag();
      }
    }

    method DispatchContinuation(f: Frame)
      requires Parsing() && AtFrame(f) && f.header.opcode.Continuation?
      modifies this`state, this`trail, this`slots, this`head, this`count, this`frag, this`sent, this`tried,
        this`reconnectAt
      modifies this`autoReconnect, this`rx, this`script
      modifies transport`open, transport`accepted, transport`tries, pool`held, oracle, clock
      ensures old(clock.now) <= clock.now && old(transport.tries) <= transport.tries
      ensures Dispatched() && Foreseen(f)
    {
      hide Core, Base, Current, Sound, Attached, Assembled, Lossy, FrontOf, Conforming, After, Replies, Pinged, Pongs,
        Heards, Follows;
      ghost var inbound, buf, a := transport.inbound, recv.value.bytes, Now();
      ghost var eaten := Eaten(f);
      AttachedMeans(rx, inbound, buf, frag, fragOpcode);
      FramesSnoc(rx.frames, f);
      FragFits();
      assert eaten.(delivered := rx.delivered + []) == eaten;
      if frag.None? {
        AteIsAttached(rx, inbound, cfg.expected, buf, frag, fragOpcode, [], frag, fragOpcode);
      } else if |f.payload| <= frag.value.Tailroom() {
        ghost var w := frag.value.Append(f.payload);
        if f.header.fin {
          ghost var m := Message(fragOpcode, w.bytes);
          AteIsAttached(rx, inbound, cfg.expected, buf, frag, fragOpcode, [m], None, fragOpcode);
          a := a.(frag := None, rx := eaten.(delivered := eaten.delivered + [m]));
        } else {
          AteIsAttached(rx, inbound, cfg.expected, buf, frag, fragOpcode, [], Some(w), fragOpcode);
        }
      }
      AppendFragment(f.payload, f.header.fin, eaten);
      if old(frag).Some? && f.header.fin && |f.payload| <= old(frag).value.Tailroom() {
        Settle(a);
      }
    }

    /** The books after the callback, from the books before it. */
    lemma Settle(a: Snapshot)
      requires After(a, Now()) && Reading(a.state) && recv.Some? && FrontOf(recv.value.bytes).Whole?
      requires Sound(a.rx, transport.inbound, cfg.expected)
      requires Attached(a.rx, transport.inbound, recv.value.bytes[FrontOf(recv.value.bytes).size..], a.frag, fragOpcode)
      requires (a.rx.drop.Some? ==> !a.open) && (Lossy(a.rx) ==> !Conforming(a.rx.frames))
      requires a.rx.drop.None? && a.frag.Some? ==> !Conforming(a.rx.frames)
      ensures Sound(rx, transport.inbound, cfg.expected) && (Reading(state) || Ended(state))
      ensures rx.frames == a.rx.frames && rx.answer == a.rx.answer
      ensures Reading(state) ==>
        && Attached(rx, transport.inbound, recv.value.bytes[FrontOf(recv.value.bytes).size..], frag, fragOpcode)
        && (rx.drop.Some? ==> !transport.open) && (Lossy(rx) ==> !Conforming(rx.frames))
    {
      hide Sound, Attached, Assembled, Lossy, FrontOf, Conforming;
      AfterIsSound(a, Now(), transport.inbound, cfg.expected);
      AttachedMeans(a.rx, transport.inbound, recv.value.bytes[FrontOf(recv.value.bytes).size..], a.frag, fragOpcode);
      if Reading(state) {
        AfterCallback(a, Now(), transport.inbound, recv.value.bytes[FrontOf(recv.value.bytes).size..], fragOpcode);
      }
    }

    method AcquireFrag()
      requires Core() && Current() && frag.None?
      modifies this`frag, pool`held, oracle`grants
      ensures Core() && Current()
      ensures old(oracle.grants) != [] ==> (frag.Some? <==> old(oracle.grants)[0])
    {
      hide Live, Queue, AllValid, Owns, TimersOk, Trail, Prefixed, Exact;
      var grant := oracle.Grant();
      var got := pool.Acquire(0, grant);
      if got.Some? {
        OwnsFragIn(old(pool.held), others, recv, Q(), got.value);
      }
      frag := got;
    }

    /** The reassembly buffer, acquired if there is none yet, and emptied. */
    method EmptyFrag(op: Opcode) returns (ok: bool)
      requires Core() && Current()
      modifies this`frag, this`fragOpcode, pool`held, oracle`grants
      ensures Core() && Current() && Fits(frag, pool.cap)
      ensures ok ==> frag.Some? && frag.value.bytes == [] && frag.value.Tailroom() == pool.cap && fragOpcode == op
      ensures old(frag).Some? ==> ok
      ensures old(frag).None? && old(oracle.grants) != [] ==> ok == old(oracle.grants)[0]
    {
      hide Core, Base, Current;
      if frag.None? {
        AcquireFrag();
      }
      FragFits();
      if frag.None? {
        return false;
      }
      ReplaceFrag(frag.value.Reset(0));
      FragFits();
      fragOpcode := op;
      return true;
    }

    /** `begin_fragment`. */
    method BeginFragment(f: Frame)
      requires Parsing() && AtFrame(f) && !f.header.fin && (f.header.opcode.Text? || f.header.opcode.Binary?)
      modifies this`state, this`trail, this`slots, this`head, this`count, this`frag, this`sent, this`tried,
        this`reconnectAt
      modifies this`autoReconnect, this`rx, this`script
      modifies transport`open, transport`accepted, transport`tries, pool`held, oracle, clock
      modifies this`fragOpcode
      ensures old(clock.now) <= clock.now && old(transport.tries) <= transport.tries
      ensures Dispatched() && Foreseen(f)
      ensures |f.payload| > pool.cap ==> state.Failed?
      ensures old(frag).None? && old(oracle.grants) != [] && !old(oracle.grants)[0] ==> state.Failed?
      ensures |f.payload| <= pool.cap && (old(frag).Some? || old(NextGranted())) ==> state == old(state)
      ensures Reading(state) ==>
        state == old(state) && frag.Some? && frag.value.bytes == f.payload && fragOpcode == f.header.opcode
    {
      hide Core, Base, Current, Sound, Attached, Assembled, Lossy, FrontOf, Conforming, After, Replies, Pinged, Pongs,
        Heards, Follows;
      ghost var inbound, buf, frag0, op0 := transport.inbound, recv.value.bytes, frag, fragOpcode;
      var ok := EmptyFrag(f.header.opcode);
      if !ok {
        Abort();
        return;
      }
      FramesSnoc(rx.frames, f);
      ghost var eaten := Eaten(f);
      assert eaten.(delivered := rx.delivered + []) == eaten;
      if |f.payload| <= frag.value.Tailroom() {
        ghost var w := frag.value.Append(f.payload);
        assert [] + f.payload == f.payload;
        AteIsAttached(rx, inbound, cfg.expected, buf, frag0, op0, [], Some(w), fragOpcode);
      }
      AppendFragment(f.payload, false, eaten);
    }

    /** A control frame changes nothing but the books: they are in step before anything else happens. */
    ghost method CountControl(f: Frame)
      requires Parsing() && AtFrame(f) && IsControl(f.header.opcode)
      modifies this`rx
      ensures rx == old(Eaten(f)) && rx.frames == old(rx.frames) + [f] && (Lossy(rx) ==> !Conforming(rx.frames))
      ensures Core() && Current() && Sound(rx, transport.inbound, cfg.expected)
      ensures !f.header.opcode.Close? ==>
        Attached(rx, transport.inbound, recv.value.bytes[FrontOf(recv.value.bytes).size..], frag, fragOpcode)
    {
      hide RingOk, BuffersOk, TimersOk, Trail, Prefixed, Current, Sound, Attached, Assembled, Lossy, FrontOf,
        Conforming, Replies, Pinged, Pongs;
      ghost var inbound, buf, eaten := transport.inbound, recv.value.bytes, Eaten(f);
      assert eaten.(delivered := rx.delivered + []) == eaten;
      AttachedMeans(rx, inbound, buf, frag, fragOpcode);
      if f.header.opcode.Close? {
        AteIsSound(rx, inbound, cfg.expected, buf, frag, fragOpcode, []);
      } else {
        AteIsAttached(rx, inbound, cfg.expected, buf, frag, fragOpcode, [], frag, fragOpcode);
      }
      rx := eaten;
    }

    /** A Ping is answered by a Pong with its payload. */
    method DispatchPing(f: Frame)
      requires Parsing() && AtFrame(f) && f.header.opcode.Ping?
      modifies this`state, this`trail, this`slots, this`head, this`count, this`frag, this`sent, this`tried,
        this`reconnectAt
      modifies this`rx
      modifies transport`open, transport`accepted, transport`tries, pool`held, oracle, clock
      ensures old(clock.now) <= clock.now && old(transport.tries) <= transport.tries
      ensures tried == old(tried) + [Message(Pong, f.payload)]
      ensures Dispatched() && Foreseen(f)
    {
      hide Core, Base, Current, Sound, Attached, Assembled, Lossy, FrontOf, Conforming, Replies, Pinged, Pongs,
        Heards, Enqueued, Refuses;
      FramesSnoc(rx.frames, f);
      RepliesSnoc(tried, Message(Pong, f.payload));
      PingIsShort(recv.value.bytes);
      CountControl(f);
      var _ := EnqueueFrame(Pong, f.payload);
    }

    method HearPong()
      requires Core() && Current()
      modifies this`awaitingPong, this`beats
      ensures Core() && Current() && !awaitingPong && beats == old(beats) + [Heard]
    {
      hide RingOk, BuffersOk, Spaced, Alternate, Backoff, Trail, Prefixed, Current;
      PongHeard(beats, cfg.pingInterval, nextPingAt, awaitingPong);
      awaitingPong, beats := false, beats + [Heard];
    }

    method DispatchPong(f: Frame)
      requires Parsing() && AtFrame(f) && f.header.opcode.Pong?
      modifies this`rx, this`awaitingPong, this`beats
      ensures Dispatched() && Foreseen(f) && !awaitingPong
    {
      hide Core, Base, Current, Sound, Attached, Assembled, Lossy, FrontOf, Conforming, Replies, Pinged, Pongs,
        Heards;
      FramesSnoc(rx.frames, f);
      CountControl(f);
      HeardsSnoc(beats, Heard);
      HearPong();
    }

    method DispatchClose(f: Frame)
      requires Parsing() && AtFrame(f) && f.header.opcode.Close?
      modifies this`state, this`trail, this`slots, this`head, this`count, this`frag, this`sent, this`tried,
        this`reconnectAt
      modifies this`rx
      modifies transport`open, transport`accepted, transport`tries, pool`held, oracle, clock
      ensures old(clock.now) <= clock.now && old(transport.tries) <= transport.tries
      ensures Dispatched() && Foreseen(f) && state.Disconnected? && rx.closed
    {
      hide RingOk, BuffersOk, TimersOk, Trail, Prefixed, Current, Sound, Attached, Assembled, Lossy, FrontOf,
        Conforming, Replies, Pinged, Pongs;
      FramesSnoc(rx.frames, f);
      CountControl(f);
      Teardown(Disconnected);
    }

    /** `dispatch_frame`. */
    method DispatchFrame(f: Frame)
      requires Parsing() && AtFrame(f)
      modifies this`state, this`trail, this`slots, this`head, this`count, this`frag, this`sent, this`tried,
        this`reconnectAt
      modifies this`autoReconnect, this`rx, this`script
      modifies transport`open, transport`accepted, transport`tries, pool`held, oracle, clock
      modifies this`fragOpcode, this`awaitingPong, this`beats
      ensures old(clock.now) <= clock.now && old(transport.tries) <= transport.tries
      ensures Dispatched() && Foreseen(f) && (awaitingPong ==> old(awaitingPong))
    {
      hide Parsing, AtFrame, Dispatched, Foreseen;
      match f.header.opcode {
        case Text =>
          if f.header.fin { DispatchWhole(f); } else { BeginFragment(f); }
        case Binary =>
          if f.header.fin { DispatchWhole(f); } else { BeginFragment(f); }
        case Continuation => DispatchContinuation(f);
        case Ping => DispatchPing(f);
        case Pong => DispatchPong(f);
        case Close => DispatchClose(f);
      }
    }

    /** One turn of `parse_frames`: the whole frame at the front is processed and consumed. */
    method ParseOne(front: Front)
      requires Parsing() && front.Whole? && front == FrontOf(recv.value.bytes)
      modifies this`state, this`trail, this`slots, this`head, this`count, this`frag, this`sent, this`tried,
        this`reconnectAt
      modifies this`autoReconnect, this`rx, this`script
      modifies transport`open, transport`accepted, transport`tries, pool`held, oracle, clock
      modifies this`fragOpcode, this`awaitingPong, this`beats, this`recv
      ensures old(clock.now) <= clock.now && old(transport.tries) <= transport.tries
      ensures awaitingPong ==> old(awaitingPong)
      ensures Foreseen(front.frame)
      ensures recv.Some? && recv.value.bytes == old(recv.value.bytes)[front.size..]
      ensures Reading(state) ==> Parsing()
      ensures !Reading(state) ==> Ended(state) && Valid() && Current()
    {
      hide RingOk, BuffersOk, TimersOk, Trail, Prefixed, Exact, Sound, Attached, FrontOf, Conforming, Lossy, Replied,
        Foreseen, Request;
      DispatchFrame(front.frame);
      RecvFits();
      ReplaceRecv(recv.value.Consume(front.size));
    }

    /** `parse_frames`: every whole frame in the buffer, then the rest is moved to the front. */
    method ParseFrames()
      requires Parsing()
      modifies this`state, this`trail, this`slots, this`head, this`count, this`frag, this`sent, this`tried,
        this`reconnectAt
      modifies this`autoReconnect, this`rx, this`script
      modifies transport`open, transport`accepted, transport`tries, pool`held, oracle, clock
      modifies this`fragOpcode, this`awaitingPong, this`beats, this`recv
      ensures old(clock.now) <= clock.now && old(transport.tries) <= transport.tries
      ensures Valid() && Current() && (Reading(state) || Ended(state)) && (awaitingPong ==> old(awaitingPong))
      ensures rx.answer == old(rx.answer)
      ensures FrontOf(old(recv.value.bytes)).Broken? ==> state.Failed?
    {
      hide RingOk, BuffersOk, TimersOk, Trail, Prefixed, Exact, Sound, Attached, FrontOf, Conforming, Lossy, Replied,
        Request, Follows, Counted;
      while true
        invariant Parsing() && (awaitingPong ==> old(awaitingPong)) && old(clock.now) <= clock.now
        invariant rx.answer == old(rx.answer) && old(transport.tries) <= transport.tries
        invariant FrontOf(old(recv.value.bytes)).Broken? ==> recv == old(recv)
        decreases |recv.value.bytes|
      {
        var front := ReadFront(recv.value.bytes);
        if front.Incomplete? {
          break;
        }
        if front.Broken? {
          Teardown(Failed);
          return;
        }
        ParseOne(front);
        if !Reading(state) {
          return;
        }
      }
      RecvFits();
      ReplaceRecv(recv.value.Compact());
    }

    ghost function RecvBytes(): seq<byte>
      reads this`recv
    {
      if recv.Some? then recv.value.bytes else []
    }

    ghost predicate RecvFull()
      reads this`recv
    {
      recv.Some? && |recv.value.bytes| == recv.value.cap
    }

    /** An end of stream ends the session quietly and an error as a failure. */
    ghost predicate ReadOutcome(n: int)
      reads this`state
    {
      (n == 0 ==> state.Disconnected?) && (n < 0 && n != -EAGAIN ==> state.Failed?)
    }

    /** A read from the transport. */
    method Fetch(room: nat) returns (n: int, data: seq<byte>)
      requires Valid() && Current() && room > 0
      modifies transport`inbound, transport`results
      ensures transport.results == old(transport.results) + [n]
      ensures Core() && Current() && Replied()
      ensures if n > 0 then transport.open && |data| == n <= room && transport.inbound == old(transport.inbound) + data
        else transport.inbound == old(transport.inbound) && Valid()
    {
      hide Core, Base, Current, Sound, FreshOk, UpgradingOk, ReadingOk, Replied;
      ValidMeans();
      n, data := transport.Read(room);
    }

    /** `drive_frame_read`: gives up when the buffer is full, which only a frame larger than the buffer
        can cause. */
    method DriveFrameRead()
      requires Valid() && Reading(state)
      modifies this`state, this`trail, this`slots, this`head, this`count, this`frag, this`sent, this`tried,
        this`reconnectAt
      modifies this`autoReconnect, this`rx, this`script
      modifies transport`open, transport`accepted, transport`tries, pool`held, oracle, clock
      modifies this`fragOpcode, this`awaitingPong, this`beats, this`recv, transport`inbound, transport`results
      ensures old(clock.now) <= clock.now && old(transport.tries) <= transport.tries
      ensures Valid() && Current() && (Reading(state) || Ended(state)) && (awaitingPong ==> old(awaitingPong))
      ensures !old(RecvFull()) ==>
        |transport.results| == |old(transport.results)| + 1 && ReadOutcome(transport.results[|old(transport.results)|])
      ensures old(RecvFull()) ==> state.Failed? && FrameExceeds(old(RecvBytes()), pool.cap)
    {
      hide Core, Base, Current, Sound, Attached, FrontOf, Conforming, Replied, Request;
      ValidMeans();
      RecvFits();
      var room := recv.value.Tailroom();
      if room == 0 {
        RingBounds();
        FullMeansTooLarge(recv.value.bytes);
        End(Failed);
        return;
      }
      ghost var inbound := transport.inbound;
      var n, data := Fetch(room);
      if n == -EAGAIN {
        return;
      }
      if n == 0 {
        End(Disconnected);
        return;
      }
      if n < 0 {
        End(Failed);
        return;
      }
      MoreArrives(rx, inbound, cfg.expected, data);
      AttachedMore(rx, inbound, recv.value.bytes, frag, fragOpcode, data);
      ReplaceRecv(recv.value.Append(data));
      ParseFrames();
    }

    // ----- Opening -----

    /** `arm_ping`, and no delay before the next reconnection. */
    method ArmTimers()
      requires TimersOk()
      modifies this`reconnectDelay, this`attempts, this`awaitingPong, this`beats, this`nextPingAt,
        clock
      ensures old(clock.now) <= clock.now
      ensures TimersOk() && !awaitingPong && reconnectDelay == 0 && attempts == 0 && beats == []
      ensures cfg.pingInterval > 0 ==> nextPingAt == clock.now + cfg.pingInterval
    {
      reconnectDelay, attempts := 0, 0;
      awaitingPong, beats := false, [];
      if cfg.pingInterval > 0 {
        var now := clock.Now();
        nextPingAt := now + cfg.pingInterval;
      }
    }

    /** The header block of the answer is dropped. */
    method DropHeaders(headersLen: nat)
      requires Core() && Current() && state.Upgrading? && UpgradingOk() && Replied()
      requires WsUpgrade.Validate(transport.inbound, cfg.expected).complete
      requires headersLen == WsUpgrade.Validate(transport.inbound, cfg.expected).headersLen
      requires WsUpgrade.Validate(transport.inbound, cfg.expected).accepted || cfg.expected == []
      modifies this`rx, this`recv
      ensures Core() && Current() && Replied() && recv.Some? && recv.value.head == 0 && rx.drop.None? && rx.frames == []
      ensures rx.answer == transport.inbound
      ensures Sound(rx, transport.inbound, cfg.expected)
      ensures Attached(rx, transport.inbound, recv.value.bytes, frag, fragOpcode)
    {
      hide RingOk, BuffersOk, TimersOk, Trail, Prefixed, Current, Request, Sound, Attached, WsUpgrade.Validate;
      RecvFits();
      Opens(transport.inbound, cfg.expected, headersLen);
      rx := NOTHING.(answer := transport.inbound, header := transport.inbound[..headersLen]);
      ReplaceRecv(recv.value.Consume(headersLen).Compact());
    }

    method StartTimers()
      requires Core() && Current() && state.Upgrading? && rx.drop.None?
      modifies this`state, this`trail, this`reconnectDelay, this`attempts, this`awaitingPong, this`beats,
        this`nextPingAt, clock
      ensures old(clock.now) <= clock.now
      ensures Core() && Current() && state.Open? && !awaitingPong && beats == []
      ensures reconnectDelay == 0 && attempts == 0
      ensures cfg.pingInterval > 0 ==> nextPingAt == clock.now + cfg.pingInterval
    {
      hide RingOk, BuffersOk, TimersOk, Trail, Prefixed, Current;
      ArmTimers();
      SetState(Open);
    }

    /** The answer is accepted. */
    method EnterOpen(headersLen: nat)
      requires Core() && Current() && state.Upgrading? && UpgradingOk() && Replied()
      requires WsUpgrade.Validate(transport.inbound, cfg.expected).complete
      requires headersLen == WsUpgrade.Validate(transport.inbound, cfg.expected).headersLen
      requires WsUpgrade.Validate(transport.inbound, cfg.expected).accepted || cfg.expected == []
      modifies this`state, this`trail, this`rx, this`recv, this`awaitingPong, this`beats, this`reconnectDelay
      modifies this`attempts, this`nextPingAt, clock
      ensures old(clock.now) <= clock.now
      ensures Parsing() && recv.value.head == 0 && !awaitingPong && rx.answer == transport.inbound
      ensures reconnectDelay == 0 && attempts == 0
      ensures cfg.pingInterval > 0 ==> nextPingAt == clock.now + cfg.pingInterval
    {
      hide Core, Base, Current, Request, Sound, Attached, Conforming, WsUpgrade.Validate;
      DropHeaders(headersLen);
      StartTimers();
    }

    /** Once open, the bytes that followed the header block are parsed. */
    method BecomeOpen(headersLen: nat)
      requires Core() && Current() && state.Upgrading? && UpgradingOk() && Replied()
      requires WsUpgrade.Validate(transport.inbound, cfg.expected).complete
      requires headersLen == WsUpgrade.Validate(transport.inbound, cfg.expected).headersLen
      requires WsUpgrade.Validate(transport.inbound, cfg.expected).accepted || cfg.expected == []
      modifies this`state, this`trail, this`slots, this`head, this`count, this`frag, this`sent, this`tried,
        this`reconnectAt
      modifies this`autoReconnect, this`rx, this`script
      modifies transport`open, transport`accepted, transport`tries, pool`held, oracle, clock
      modifies this`fragOpcode, this`awaitingPong, this`beats, this`recv, this`reconnectDelay, this`attempts
      modifies this`nextPingAt
      ensures old(clock.now) <= clock.now && old(transport.tries) <= transport.tries
      ensures Valid() && (Reading(state) || Ended(state)) && !awaitingPong && rx.answer == transport.inbound
      ensures reconnectDelay == 0 && attempts == 0
      ensures cfg.pingInterval > 0 ==> old(clock.now) + cfg.pingInterval <= nextPingAt <= clock.now + cfg.pingInterval
    {
      hide Core, Base, Current, Sound, Attached, FrontOf, Conforming, Lossy, Replied, Request, UpgradingOk, FreshOk,
        WsUpgrade.Validate;
      EnterOpen(headersLen);
      if recv.value.Size() > 0 {
        ParseFrames();
      } else {
        NoFrameYet();
      }
    }

    /** Nothing yet and an unfinished answer leave the session waiting; an answer that is not the expected one, an end
        of stream and an error end it; any other answer opens it. */
    ghost predicate UpgradeOutcome(n: int)
      reads this`state, this`rx, this`reconnectDelay, this`attempts, transport`inbound
    {
      var v := WsUpgrade.Validate(transport.inbound, cfg.expected);
      if n == -EAGAIN then state.Upgrading?
      else if n <= 0 then state.Failed?
      else if !v.complete then state.Upgrading?
      else if !v.accepted && cfg.expected != [] then state.Failed?
      else rx.answer == transport.inbound && !state.Upgrading? && reconnectDelay == 0 && attempts == 0
    }

    /** `drive_upgrade_read`. */
    method DriveUpgradeRead()
      requires Valid() && state.Upgrading?
      modifies this`state, this`trail, this`slots, this`head, this`count, this`frag, this`sent, this`tried,
        this`reconnectAt
      modifies this`autoReconnect, this`rx, this`script
      modifies transport`open, transport`accepted, transport`tries, pool`held, oracle, clock
      modifies this`fragOpcode, this`awaitingPong, this`beats, this`recv, this`reconnectDelay, this`attempts
      modifies this`nextPingAt, transport`inbound, transport`results
      ensures old(clock.now) <= clock.now && old(transport.tries) <= transport.tries
      ensures Valid() && (state.Upgrading? || Reading(state) || Ended(state))
      ensures Reading(state) ==> !awaitingPong && (cfg.pingInterval > 0 ==> old(clock.now) < nextPingAt)
      ensures old(RecvFull()) ==> state.Failed?
      ensures !old(RecvFull()) ==>
        && |transport.results| == |old(transport.results)| + 1
        && UpgradeOutcome(transport.results[|old(transport.results)|])
    {
      hide Core, Base, Current, Sound, ReadingOk, WsUpgrade.Validate, Replied, Request;
      ValidMeans();
      RecvFits();
      var room := recv.value.Tailroom();
      if room == 0 {
        End(Failed);
        return;
      }
      ghost var inbound := transport.inbound;
      var n, data := Fetch(room);
      if n == -EAGAIN {
        return;
      }
      if n <= 0 {
        End(Failed);
        return;
      }
      MoreArrives(rx, inbound, cfg.expected, data);
      ReplaceRecv(recv.value.Append(data));
      var r := WsUpgrade.CheckUpgrade(recv.value.bytes, cfg.expected);
      if !r.complete {
        return;
      }
      var ok := r.accepted || (cfg.expected == [] && r.headersLen > 0);
      if !ok {
        End(Failed);
        return;
      }
      BecomeOpen(r.headersLen);
    }

    /** Builds the request in a buffer of its own and queues it.  The queue is empty here, so the request
        is never refused a slot. */
    method QueueRequest() returns (ok: bool)
      requires Base() && Current() && count == 0 && upgrade == [] && sent == [] && transport.accepted == []
      modifies this`slots, this`count, this`upgrade, pool`held, oracle`grants
      ensures Base() && (ok ==> Current() && upgrade == Request() && count == 1 && FrontRest() == Request())
      ensures old(oracle.grants) != [] ==> ok == (old(oracle.grants)[0] && |Request()| <= pool.cap)
    {
      hide Live, Queue, AllValid, Owns, TimersOk, Trail, Prefixed, Exact, Fits, HttpRequest.UpgradeRequest;
      var grant := oracle.Grant();
      var got := pool.Acquire(0, grant);
      if got.None? {
        return false;
      }
      var b := got.value;
      var request := HttpRequest.UpgradeRequest(cfg.host, cfg.path, cfg.secKey);
      if |request| > b.Tailroom() {
        pool.Release(b);
        assert pool.held == old(pool.held);
        return false;
      }
      b := b.Append(request);
      assert b.bytes == request;
      ghost var q := Q();
      ok := PushPending(b);
      assert ok && Q() == [Item(b, 0)];
      OwnsPush(old(pool.held), others, recv, frag, q, b);
      upgrade := request;
      ExactUpgrade(transport.accepted, upgrade, b, pool.cap);
      ExactIsPrefixed(transport.accepted, upgrade, sent, Q(), pool.cap);
    }

    method StartUpgrade()
      requires Valid() && state.Connecting?
      modifies this`state, this`trail, this`recv
      ensures Base() && Current() && state.Upgrading? && FreshOk()
      ensures Sound(rx, transport.inbound, cfg.expected) && Replied()
    {
      hide Base, Current, Sound, Replied, UpgradingOk, ReadingOk, RingOk, BuffersOk, TimersOk;
      ValidMeans();
      RecvFits();
      SetState(Upgrading);
      ReplaceRecv(recv.value.Reset(0));
      CoreMeans();
    }

    lemma FreshMeans()
      requires FreshOk()
      ensures recv.Some? && recv.value.bytes == transport.inbound && recv.value.head == 0 && frag.None? && count == 0
      ensures upgrade == [] && sent == [] && rx == NOTHING && transport.accepted == []
    {
    }

    /** `send_upgrade_request`. */
    method SendUpgradeRequest()
      requires Valid() && state.Connecting?
      modifies this`state, this`trail, this`slots, this`head, this`count, this`recv, this`frag, this`upgrade,
        this`reconnectAt
      modifies transport`open, transport`accepted, transport`tries, pool`held, oracle, clock
      ensures old(clock.now) <= clock.now && old(transport.tries) <= transport.tries
      ensures Valid() && (state.Upgrading? || Ended(state))
      ensures old(NextGranted()) && |Request()| <= pool.cap ==>
        upgrade == Request() && Offered(old(transport.tries), Request())
    {
      hide Base, Current, Sound, Request, Replied, FreshOk, ReadingOk, FrontRest, Finished, RingOk, BuffersOk,
        TimersOk;
      StartUpgrade();
      FreshMeans();
      var ok := QueueRequest();
      if !ok {
        Teardown(Failed);
        return;
      }
      FlushPending();
    }

    // ----- Keepalive -----

    method RecordPing(now: int)
      requires Core() && cfg.pingInterval > 0 && nextPingAt <= now && !awaitingPong
      modifies this`awaitingPong, this`beats, this`nextPingAt, this`pongDeadline
      ensures Core() && beats == old(beats) + [Asked(now)] && awaitingPong
      ensures pongDeadline == now + cfg.pongTimeout && nextPingAt == now + cfg.pingInterval
    {
      hide RingOk, BuffersOk, Spaced, Alternate, Backoff, Trail, Prefixed, Current;
      SpacedPing(beats, cfg.pingInterval, nextPingAt, now);
      AlternatePing(beats, now);
      awaitingPong, beats := true, beats + [Asked(now)];
      pongDeadline := now + cfg.pongTimeout;
      nextPingAt := now + cfg.pingInterval;
    }

    /** A ping goes out: it is due, and the one before it has been answered. */
    method SendPing(now: int)
      requires Valid() && Current() && (Reading(state) || Ended(state))
      requires cfg.pingInterval > 0 && nextPingAt <= now && !awaitingPong
      modifies this`state, this`trail, this`slots, this`head, this`count, this`frag, this`sent, this`tried,
        this`reconnectAt
      modifies this`awaitingPong, this`beats, this`nextPingAt, this`pongDeadline
      modifies transport`open, transport`accepted, transport`tries, pool`held, oracle, clock
      ensures old(clock.now) <= clock.now && old(transport.tries) <= transport.tries
      ensures tried == old(tried) + [Message(Ping, [])] && beats == old(beats) + [Asked(now)] && awaitingPong
      ensures Ended(old(state)) ==> Ended(state)
      ensures Valid() && (Reading(state) || Ended(state)) && pongDeadline == now + cfg.pongTimeout
    {
      hide Core, Base, Current, Sound, ReadingOk, Replies, Pinged, Pongs, Heards, Enqueued, Refuses, Verdict;
      var _ := EnqueueFrame(Ping, []);
      HeardsSnoc(beats, Asked(now));
      RecordPing(now);
    }

    /** The Pong should have come by now. */
    ghost predicate Overdue()
      reads this`awaitingPong, this`pongDeadline, clock
    {
      cfg.pingInterval > 0 && cfg.pongTimeout > 0 && awaitingPong && pongDeadline <= clock.now
    }

    /** `check_keepalive`, which also runs right after a read that tore the session down. */
    method CheckKeepalive()
      requires Valid() && Current() && (Reading(state) || Ended(state))
      modifies this`state, this`trail, this`slots, this`head, this`count, this`frag, this`sent, this`tried,
        this`reconnectAt
      modifies this`awaitingPong, this`beats, this`nextPingAt, this`pongDeadline
      modifies transport`open, transport`accepted, transport`tries, pool`held, oracle, clock
      ensures old(clock.now) <= clock.now && old(transport.tries) <= transport.tries
      ensures Valid() && (Reading(state) || Ended(state))
      ensures cfg.pingInterval > 0 && !old(awaitingPong) && old(nextPingAt) <= old(clock.now) ==>
        tried == old(tried) + [Message(Ping, [])]
      ensures Ended(old(state)) ==> Ended(state)
      ensures old(Overdue()) ==> state.Failed?
      ensures Answerable(old(clock.now))
    {
      hide RingOk, BuffersOk, TimersOk, Trail, Prefixed, Exact, Sound, ReadingOk;
      if cfg.pingInterval <= 0 {
        return;
      }
      var now := clock.Now();
      if awaitingPong {
        if cfg.pongTimeout > 0 && now >= pongDeadline {
          Teardown(Failed);
        }
        return;
      }
      if now >= nextPingAt {
        SendPing(now);
      }
    }

    /** No session that reads still waits, at time `t`, for a Pong that was due before, or owes a ping. */
    ghost predicate Answerable(t: int)
      reads this`state, this`awaitingPong, this`pongDeadline, this`nextPingAt
    {
      Reading(state) && cfg.pingInterval > 0 ==>
        if awaitingPong then cfg.pongTimeout > 0 ==> t < pongDeadline else t < nextPingAt
    }

    /** `check_timeouts`. */
    method CheckTimeouts()
      requires Valid()
      modifies this`state, this`trail, this`slots, this`head, this`count, this`frag, this`reconnectAt
      modifies transport`open, pool`held, clock
      ensures old(clock.now) <= clock.now
      ensures Valid() && (state == old(state) || state.Failed?)
      ensures state != old(state) ==> 0 < connectDeadline <= clock.now
      ensures state == old(state) ==> slots == old(slots) && head == old(head) && count == old(count)
      ensures !old(state.Connecting? || state.Upgrading?) ==> state == old(state) && reconnectAt == old(reconnectAt)
      ensures old(state.Connecting? || state.Upgrading?) && 0 < connectDeadline <= old(clock.now) ==> state.Failed?
    {
      hide RingOk, BuffersOk, TimersOk, Trail, Prefixed, Exact, Sound, FreshOk, UpgradingOk, ReadingOk;
      if (state.Connecting? || state.Upgrading?) && connectDeadline > 0 {
        var now := clock.Now();
        if now >= connectDeadline {
          Teardown(Failed);
        }
      }
    }

    // ----- Connecting -----

    /** All buffers are given back, and one is acquired to receive into. */
    method FreshBuffers() returns (ok: bool)
      requires Base()
      modifies this`slots, this`head, this`count, this`recv, this`frag, pool`held, oracle`grants
      ensures Base() && count == 0 && frag.None?
      ensures old(oracle.grants) != [] ==> ok == old(oracle.grants)[0]
      ensures if ok then recv.Some? && recv.value.bytes == [] && recv.value.head == 0 else recv.None?
    {
      hide Live, Queue, AllValid, Owns, TimersOk, Trail, Prefixed;
      ReleaseBuffers();
      assert Q() == [];
      var grant := oracle.Grant();
      var got := pool.Acquire(0, grant);
      if got.None? {
        return false;
      }
      OwnsRecvIn(others, others, None, Q(), got.value);
      recv := got;
      return true;
    }

    lemma NothingPending()
      requires RingOk() && count == 0 && transport.accepted == [] && upgrade == [] && sent == []
      ensures Current() && Prefixed(transport.accepted, upgrade, sent)
    {
      hide Live, Queue, Exact, Prefixed;
      NothingSent(Q(), pool.cap);
    }

    method SetDeadline()
      modifies this`connectDeadline, clock
      ensures old(clock.now) <= clock.now
      ensures connectDeadline == if cfg.connectTimeout > 0 then clock.now + cfg.connectTimeout else 0
    {
      connectDeadline := 0;
      if cfg.connectTimeout > 0 {
        var now := clock.Now();
        connectDeadline := now + cfg.connectTimeout;
      }
    }

    ghost method ForgetBeats()
      requires Base()
      modifies this`beats
      ensures Base() && beats == []
    {
      hide RingOk, BuffersOk, Spaced, Alternate, Backoff, Trail, Prefixed;
      NoBeats(cfg.pingInterval, nextPingAt, awaitingPong);
      beats := [];
    }

    /** A new connection starts with clean books. */
    method Dial(ok: bool)
      requires Base() && count == 0
      modifies this`upgrade, this`sent, this`tried, this`rx, this`beats, transport`open, transport`accepted,
        transport`inbound
      ensures Base() && Current() && Replied()
      ensures upgrade == [] && sent == [] && tried == [] && rx == NOTHING && Sound(rx, transport.inbound, cfg.expected)
      ensures transport.accepted == [] && transport.inbound == [] && transport.open == ok
    {
      hide RingOk, BuffersOk, TimersOk, Trail, Prefixed, Current, Sound, Replies, Pinged, Pongs, Heards;
      ForgetBeats();
      transport.Connect(ok);
      upgrade, sent, tried, rx := [], [], [], NOTHING;
      NothingReplied();
      NothingPending();
      SoundNothing(transport.inbound, cfg.expected);
    }

    method Launch(reach: bool)
      requires Base() && count == 0 && frag.None?
      requires recv.Some? && recv.value.bytes == [] && recv.value.head == 0
      modifies this`state, this`trail, this`slots, this`head, this`count, this`frag, this`sent, this`tried
      modifies this`reconnectAt, this`connectDeadline, this`upgrade, this`rx, this`beats
      modifies transport`open, transport`accepted, transport`inbound, pool`held, clock
      ensures old(clock.now) <= clock.now
      ensures Valid() && state == if reach then Connecting else Failed
      ensures reach ==> connectDeadline == if cfg.connectTimeout > 0 then clock.now + cfg.connectTimeout else 0
    {
      hide Base, Current, Sound, UpgradingOk, ReadingOk, Replied;
      SetDeadline();
      Dial(reach);
      if !reach {
        Teardown(Failed);
        return;
      }
      SetState(Connecting);
    }

    /** `start_connect`.  `reach`: whether the transport gets an attempt under way. */
    method StartConnect(reach: bool)
      requires Base() && Sound(rx, transport.inbound, cfg.expected) && Replied()
      modifies this`state, this`trail, this`slots, this`head, this`count, this`recv, this`frag, this`sent, this`tried
      modifies this`reconnectAt, this`connectDeadline, this`upgrade, this`rx, this`beats
      modifies transport`open, transport`accepted, transport`inbound, pool`held, oracle`grants, clock
      ensures old(clock.now) <= clock.now
      ensures Valid() && (state.Connecting? || state.Failed?) && (state.Connecting? ==> reach)
      ensures reach && old(NextGranted()) ==> state.Connecting?
      ensures state.Connecting? ==>
        connectDeadline == if cfg.connectTimeout > 0 then clock.now + cfg.connectTimeout else 0
    {
      hide Base, Current, Sound, FreshOk, UpgradingOk, ReadingOk, Replied;
      var ok := FreshBuffers();
      if !ok {
        SetState(Failed);
        return;
      }
      Launch(reach);
    }

    /** `connect`: gives up whatever connection there is and starts another. */
    method Connect(reach: bool)
      requires Valid()
      modifies this`state, this`trail, this`slots, this`head, this`count, this`recv, this`frag, this`sent, this`tried
      modifies this`reconnectAt, this`connectDeadline, this`upgrade, this`rx, this`beats
      modifies transport`open, transport`accepted, transport`inbound, pool`held, oracle`grants, clock
      ensures old(clock.now) <= clock.now
      ensures Valid() && (state.Connecting? || state.Failed?) && (state.Connecting? ==> reach)
      ensures reach && old(NextGranted()) ==> state.Connecting?
      ensures state.Connecting? ==>
        connectDeadline == if cfg.connectTimeout > 0 then clock.now + cfg.connectTimeout else 0
    {
      hide Base, Current, Sound, PhaseOk;
      StartConnect(reach);
    }

    /** `maybe_reconnect`: not before the delay has passed, and then with the next longer delay. */
    method MaybeReconnect(reach: bool)
      requires Valid() && Ended(state)
      modifies this`state, this`trail, this`slots, this`head, this`count, this`recv, this`frag, this`sent, this`tried
      modifies this`reconnectAt, this`connectDeadline, this`upgrade, this`rx, this`beats, this`reconnectDelay,
        this`attempts
      modifies transport`open, transport`accepted, transport`inbound, pool`held, oracle`grants, clock
      ensures old(clock.now) <= clock.now
      ensures Valid() && (state.Connecting? || Ended(state))
      ensures attempts == old(attempts) || (attempts == old(attempts) + 1 && autoReconnect
        && old(reconnectAt) <= clock.now)
      ensures old(autoReconnect) && old(reconnectAt) <= old(clock.now) ==> attempts == old(attempts) + 1
      ensures attempts == old(attempts) ==> state == old(state)
      ensures attempts != old(attempts) && reach && old(NextGranted()) ==> state.Connecting?
    {
      hide RingOk, BuffersOk, Spaced, Alternate, Backoff, Trail, Prefixed, Exact, Sound, PhaseOk;
      if !autoReconnect {
        return;
      }
      var now := clock.Now();
      if now < reconnectAt {
        return;
      }
      NextDelayIsBackoff(attempts);
      reconnectDelay := NextDelay(reconnectDelay);
      attempts := attempts + 1;
      StartConnect(reach);
    }

    /** The deadline has not passed. */
    ghost predicate InTime(deadline: int)
      reads clock
    {
      deadline <= 0 || clock.now < deadline
    }

    /** An attempt that is open leads to the upgrade request, one that failed ends, one that is pending waits. */
    ghost predicate Polled(poll: Phase, before: seq<Attempt>, granted: bool)
      reads this`state, this`upgrade, transport`tries
    {
      match poll
      case PhasePending => state.Connecting?
      case PhaseOpen =>
        && (state.Upgrading? || Ended(state))
        && (granted && |Request()| <= pool.cap ==> upgrade == Request() && Offered(before, Request()))
      case _ => state.Failed?
    }

    lemma ConnectingIsOpen()
      requires Valid() && state.Connecting?
      ensures transport.open
    {
      hide Core, Sound, Replied, UpgradingOk, ReadingOk;
    }

    /** The part of a turn for an open transport: writes, then reads. */
    method Serve()
      requires Valid() && (state.Upgrading? || Reading(state))
      modifies this, transport, pool`held, oracle, clock
      ensures old(clock.now) <= clock.now && old(transport.tries) <= transport.tries
      ensures Valid() && Answerable(old(clock.now)) && !state.Connecting?
      ensures old(count) > 0 ==> Offered(old(transport.tries), old(FrontRest()))
      ensures Ended(state) || |transport.results| == |old(transport.results)| + 1
    {
      hide Valid, ValidUnflushed, Core, Base, Current, FrontRest, Finished, Request, UpgradeOutcome;
      ValidMeans();
      FlushPending();
      ghost var mid := transport.tries;
      if state.Upgrading? {
        DriveUpgradeRead();
      } else if Reading(state) {
        DriveFrameRead();
        CheckKeepalive();
      }
      if old(count) > 0 {
        StillOffered(old(transport.tries), old(FrontRest()), mid);
      }
    }

    /** `on_ready`: one turn of the event loop. */
    method OnReady(poll: Phase, reach: bool)
      requires Valid()
      modifies this, transport, pool`held, oracle, clock
      ensures old(clock.now) <= clock.now && old(transport.tries) <= transport.tries
      ensures Valid() && Answerable(old(clock.now))
      ensures Ended(old(state)) && old(autoReconnect) && old(reconnectAt) <= old(clock.now) ==>
        attempts == old(attempts) + 1 && (reach && old(NextGranted()) ==> state.Connecting?)
      ensures old(state).Connecting? && InTime(old(connectDeadline)) ==>
        Polled(poll, old(transport.tries), old(NextGranted()))
      ensures old(Reading(state)) || (old(state).Upgrading? && InTime(old(connectDeadline))) ==>
        && (old(count) > 0 ==> Offered(old(transport.tries), old(FrontRest())))
        && (Ended(state) || |transport.results| == |old(transport.results)| + 1)
    {
      hide Valid, Core, Base, Current, FrontRest, Request;
      CheckTimeouts();
      if Ended(state) {
        MaybeReconnect(reach);
        return;
      }
      if state.Connecting? {
        ConnectingIsOpen();
        var phase := transport.PollOpen(poll);
        if phase.PhaseOpen? {
          SendUpgradeRequest();
        } else if phase.PhaseFailed? || phase.PhaseClosed? {
          End(Failed);
        }
        return;
      }
      Serve();
    }
  }
}
