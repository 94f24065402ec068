/**
 `HttpClient`: one keep-alive connection, one request in flight at a time.

 The books count what became of every accepted request and record, for every response delivered, the connection
 and the bytes it was parsed from and what its callback called.
 */
module HttpClient {
  import opened Bits
  import opened Environment
  import opened HttpBooks
  import opened HttpPeer
  import opened HttpResponse
  import opened IoBuffer
  import opened Ownership
  import opened Wrappers
  import HttpLaws
  import HttpRequest

  datatype State = Disconnected | Connecting | Idle | Sending | Receiving | Failed

  datatype Submit = Ok | Busy | NotReady | TooLarge

  /** What stops the program short: an assertion that fails, or a length that wraps around. */
  datatype Fault = NoFault | Overrun | Wrapped

  datatype Config = Config(host: seq<byte>, requestTimeout: int, connectTimeout: int)

  /** Runs the in-place parser on the buffered bytes: the view it returns and the bytes it leaves. */
  method ParseBuffered(bytes: seq<byte>) returns (v: View, now: seq<byte>)
    ensures Denotes(v, now, bytes, ParseResponse(bytes))
  {
    var buf := new byte[|bytes|](i requires 0 <= i < |bytes| => bytes[i]);
    assert buf[..] == bytes;
    v := ParseInPlace(buf);
    now := buf[..];
  }

  lemma Arrives(inbound: seq<byte>, since: nat, data: seq<byte>)
    requires since <= |inbound|
    ensures (inbound + data)[since..] == inbound[since..] + data
  {
  }

  lemma ConsumedFits(v: View, now: seq<byte>, bytes: seq<byte>)
    requires ParseResponse(bytes).Complete? && Denotes(v, now, bytes, ParseResponse(bytes))
    ensures 0 < v.consumed <= |now| == |bytes|
  {
    hide ParseResponse;
    HttpLaws.ConsumesSome(bytes);
  }

  lemma NothingAsked(host: seq<byte>)
    ensures Stream(host, []) == []
  {
  }

  class Client {
    const pool: Pool
    const transport: Transport
    const clock: Clock
    const cfg: Config

    var state: State
    var send: Option<Window>
    var sendOff: nat
    var recv: Option<Window>
    var requestDeadline: int
    var connectDeadline: int
    var fault: Fault

    // The books.
    ghost const others: set<nat>
    ghost var log: seq<Logged>
    ghost var past: seq<seq<byte>>
    ghost var pastOut: seq<seq<byte>>
    ghost var since: nat
    ghost var inflight: bool
    ghost var answers: seq<Exchange>
    ghost var callbacks: seq<seq<Call>>
    ghost var errors: nat
    ghost var abandoned: nat

    // ----- Invariants -----

    /** What was received on each connection so far. */
    ghost function Conns(): seq<seq<byte>>
      reads this`past, transport`inbound
    {
      past + [transport.inbound]
    }

    /** What was written on each connection so far. */
    ghost function Outs(): seq<seq<byte>>
      reads this`pastOut, transport`accepted
    {
      pastOut + [transport.accepted]
    }

    /** The requests accepted on this connection. */
    ghost function Asks(): seq<Ask>
      reads this`log, this`past
    {
      AsksOn(log, |past|)
    }

    /** All of them, in bytes. */
    ghost function Wire(): seq<byte>
      reads this`log, this`past
    {
      Stream(cfg.host, Asks())
    }

    /** Every accepted request is answered, failed, abandoned, or the one in flight. */
    ghost predicate Accounted()
      reads this`inflight, this`log, this`answers, this`errors, this`abandoned
    {
      |log| == |answers| + errors + abandoned + (if inflight then 1 else 0)
    }

    ghost predicate Answered()
      reads this`answers, this`past, this`log, this`since, this`inflight, transport`inbound
    {
      && Booked(answers, Conns(), log) && since <= |transport.inbound|
      && (inflight ==> log != [] && log[|log| - 1].conn == |past| && Cleared(answers, |past|, since, |log| - 1))
    }

    ghost predicate OutOk()
      reads this`past, this`pastOut, this`log, transport`accepted
    {
      |pastOut| == |past| && Written(Outs(), log, cfg.host)
    }

    ghost predicate BuffersOk()
      reads this`send, this`recv, pool
    {
      && (send.Some? ==> send.value.Valid() && send.value.cap == pool.cap)
      && (recv.Some? ==> recv.value.Valid() && recv.value.cap == pool.cap)
      && Owned(pool.held, others, Handle(send) + Handle(recv))
    }

    ghost predicate Base()
      reads this`send, this`recv, this`fault, this`log, this`past, this`pastOut, this`since, this`inflight,
        this`answers, this`callbacks, this`errors, this`abandoned
      reads pool, transport`accepted, transport`inbound
    {
      BuffersOk() && Accounted() && Answered() && OutOk() && Calm(callbacks) && fault.NoFault?
    }

    ghost predicate SendEmpty()
      reads this`send
    {
      send.Some? && send.value.bytes == [] && send.value.head == 0
    }

    /** The receive buffer holds what arrived since the request. */
    ghost predicate ReceivedSince()
      reads this`recv, this`since, transport`inbound
    {
      recv.Some? && recv.value.head == 0 && since <= |transport.inbound|
        && recv.value.bytes == transport.inbound[since..]
    }

    ghost predicate SendingOk()
      reads this`send, this`sendOff, this`log, this`past, transport`accepted
    {
      send.Some? && WrittenUpTo(transport.accepted, cfg.host, Asks(), send.value.bytes, sendOff)
    }

    ghost predicate PhaseOk()
      reads this`state, this`send, this`sendOff, this`recv, this`log, this`past, this`since
      reads transport`open, transport`accepted, transport`inbound
    {
      match state
      case Disconnected => send.None? && recv.None? && !transport.open
      case Failed => !transport.open
      case Connecting => SendEmpty() && recv.Some? && recv.value.bytes == [] && transport.open
        && transport.accepted == Wire()
      case Idle => SendEmpty() && recv.Some? && transport.open && transport.accepted == Wire()
      case Sending =>
        transport.open && SendingOk() && sendOff < |send.value.bytes| && ReceivedSince() && recv.value.bytes == []
      case Receiving =>
        transport.open && SendingOk() && sendOff == |send.value.bytes| && transport.accepted == Wire()
        && ReceivedSince() && ParseResponse(recv.value.bytes).Incomplete?
    }

    ghost predicate Settled()
      reads this`state, this`send, this`sendOff, this`recv, this`fault, this`log, this`past, this`pastOut, this`since,
        this`inflight, this`answers, this`callbacks, this`errors, this`abandoned
      reads pool, transport`open, transport`accepted, transport`inbound
    {
      Base() && PhaseOk() && (inflight <==> state.Sending? || state.Receiving?)
    }

    /** Between calls; every answer went to a callback. */
    ghost predicate Valid()
      reads this`state, this`send, this`sendOff, this`recv, this`fault, this`log, this`past, this`pastOut, this`since,
        this`inflight, this`answers, this`callbacks, this`errors, this`abandoned
      reads pool, transport`open, transport`accepted, transport`inbound
    {
      Settled() && |callbacks| == |answers|
    }

    constructor (pool: Pool, transport: Transport, clock: Clock, cfg: Config)
      requires !transport.open && transport.accepted == []
      ensures Valid() && state.Disconnected? && log == []
      ensures this.pool == pool && this.transport == transport && this.clock == clock && this.cfg == cfg
    {
      this.pool, this.transport, this.clock, this.cfg := pool, transport, clock, cfg;
      state, send, sendOff, recv := Disconnected, None, 0, None;
      requestDeadline, connectDeadline, fault := 0, 0, NoFault;
      others, log, past, pastOut, since, inflight := pool.held, [], [], [], 0, false;
      answers, callbacks, errors, abandoned := [], [], 0, 0;
      new;
      hide Owned, Booked;
      OwnedNothing(pool.held, others);
      NothingBooked(Conns(), log);
    }

    // ----- Ending -----

    /** `fail`: the request in flight, if any, ends in `on_error`. */
    method Fail()
      requires Base()
      modifies this`state, this`inflight, this`errors, transport`open
      ensures Settled() && state.Failed?
      ensures errors == old(errors) + (if old(inflight) then 1 else 0)
    {
      hide BuffersOk, Booked, Cleared, OutOk, Calm;
      transport.Close();
      state := Failed;
      if inflight {
        errors, inflight := errors + 1, false;
      }
    }

    method ReleaseBuffers()
      requires BuffersOk()
      modifies this`send, this`recv, pool`held
      ensures BuffersOk() && send.None? && recv.None? && pool.held == others
    {
      hide Owned;
      if send.Some? {
        assert Handle(send) + Handle(recv) == Handle(recv) + multiset{send.value.id};
        Released(pool.held, others, Handle(recv), send.value.id);
        pool.Release(send.value);
        send := None;
        assert Handle(send) + Handle(recv) == Handle(recv);
      }
      if recv.Some? {
        assert Handle(send) + Handle(recv) == multiset{} + multiset{recv.value.id};
        Released(pool.held, others, multiset{}, recv.value.id);
        pool.Release(recv.value);
        recv := None;
      }
      assert Handle(send) + Handle(recv) == multiset{};
      OwnedNothing(pool.held, others);
    }

    /** The caller gives up the request in flight. */
    ghost method Abandon()
      requires Base()
      modifies this`inflight, this`abandoned
      ensures Base() && !inflight && abandoned == old(abandoned) + (if old(inflight) then 1 else 0)
    {
      hide BuffersOk, Booked, Cleared, OutOk, Calm;
      if inflight {
        abandoned, inflight := abandoned + 1, false;
      }
    }

    /** `close`. */
    method Close()
      requires Base()
      modifies this`state, this`send, this`recv, this`inflight, this`abandoned, transport`open, pool`held
      ensures Settled() && state.Disconnected?
      ensures abandoned == old(abandoned) + (if old(inflight) then 1 else 0)
    {
      hide BuffersOk, Accounted, Answered, OutOk, Calm, Stream;
      Abandon();
      transport.Close();
      ReleaseBuffers();
      state := Disconnected;
    }

    // ----- Connecting -----

    /** Both buffers, or a failure that keeps whichever was acquired until they are released. */
    method AcquireBuffers(first: bool, second: bool) returns (ok: bool)
      requires BuffersOk() && send.None? && recv.None?
      modifies this`send, this`recv, pool`held
      ensures BuffersOk() && ok == (first && second)
      ensures ok ==> SendEmpty() && recv.Some? && recv.value.bytes == []
    {
      hide Owned;
      send := pool.Acquire(0, first);
      if send.Some? {
        Acquired(old(pool.held), others, Handle(old(send)) + Handle(recv), send.value.id);
        assert Handle(old(send)) + Handle(recv) + multiset{send.value.id} == Handle(send) + Handle(recv);
      }
      ghost var held := pool.held;
      recv := pool.Acquire(0, second);
      if recv.Some? {
        Acquired(held, others, Handle(send) + Handle(old(recv)), recv.value.id);
        assert Handle(send) + Handle(old(recv)) + multiset{recv.value.id} == Handle(send) + Handle(recv);
      }
      return send.Some? && recv.Some?;
    }

    method SetConnectDeadline()
      modifies this`connectDeadline, clock
      ensures old(clock.now) <= clock.now
      ensures connectDeadline == if cfg.connectTimeout > 0 then clock.now + cfg.connectTimeout else 0
    {
      connectDeadline := 0;
      if cfg.connectTimeout > 0 {
        var now := clock.Now();
        connectDeadline := now + cfg.connectTimeout;
      }
    }

    /** A new connection starts with clean books. */
    method Dial(ok: bool)
      requires Base() && !inflight
      modifies this`past, this`pastOut, this`since, transport`open, transport`accepted, transport`inbound
      ensures Base() && transport.accepted == Wire() && transport.open == ok
    {
      hide BuffersOk, Booked, Written, Calm, Stream, AsksOn;
      BookedDial(answers, Conns(), log);
      WrittenDial(Outs(), log, cfg.host);
      past, pastOut, since := Conns(), Outs(), 0;
      transport.Connect(ok);
      NothingAsked(cfg.host);
    }

    method Launch(ok: bool)
      requires Base() && !inflight && SendEmpty() && recv.Some? && recv.value.bytes == []
      modifies this`state, this`connectDeadline, this`past, this`pastOut, this`since, this`inflight, this`errors
      modifies transport`open, transport`accepted, transport`inbound, clock
      ensures old(clock.now) <= clock.now
      ensures Settled() && errors == old(errors) && state == if ok then Connecting else Failed
      ensures ok ==> connectDeadline == if cfg.connectTimeout > 0 then clock.now + cfg.connectTimeout else 0
    {
      hide Base, Stream, AsksOn;
      SetConnectDeadline();
      Dial(ok);
      if !ok {
        Fail();
        return;
      }
      state := Connecting;
    }

    /** `start_connect`.  `reach`: the pool has both buffers and the attempt gets under way. */
    method StartConnect(reach: bool)
      requires Base() && !inflight
      modifies this`state, this`send, this`recv, this`connectDeadline, this`past, this`pastOut, this`since,
        this`inflight, this`errors
      modifies transport`open, transport`accepted, transport`inbound, pool`held, clock
      ensures old(clock.now) <= clock.now
      ensures Settled() && errors == old(errors) && state == if reach then Connecting else Failed
      ensures reach ==> connectDeadline == if cfg.connectTimeout > 0 then clock.now + cfg.connectTimeout else 0
    {
      hide BuffersOk, Accounted, Answered, OutOk, Calm, Stream;
      var first: bool, second: bool, third: bool := *, *, *;
      if reach || (first && second && third) {
        first, second, third := true, true, reach;
      }
      ReleaseBuffers();
      var ok := AcquireBuffers(first, second);
      if !ok {
        Fail();
        return;
      }
      Launch(third);
    }

    /** `connect`: nothing to do while connected or connecting; otherwise a request in flight is given up. */
    method Connect(reach: bool)
      requires Base()
      requires state.Idle? || state.Connecting? ==> Settled()
      modifies this`state, this`send, this`recv, this`connectDeadline, this`past, this`pastOut, this`since,
        this`inflight, this`errors
      modifies this`abandoned, transport`open, transport`accepted, transport`inbound, pool`held, clock
      ensures old(clock.now) <= clock.now
      ensures Settled() && errors == old(errors)
      ensures state == if old(state).Idle? || old(state).Connecting? then old(state)
        else if reach then Connecting else Failed
      ensures state.Connecting? && !old(state).Connecting? ==>
        connectDeadline == if cfg.connectTimeout > 0 then clock.now + cfg.connectTimeout else 0
      ensures abandoned == old(abandoned) + (if old(inflight) then 1 else 0)
    {
      hide Base, PhaseOk;
      if state.Idle? || state.Connecting? {
        return;
      }
      Abandon();
      StartConnect(reach);
    }

    // ----- Requests -----

    /** The answer of `request` unless the client is idle. */
    method Refusal() returns (status: Submit)
      requires !state.Idle?
      ensures status == if state.Sending? || state.Receiving? then Busy else NotReady
    {
      status := if state.Sending? || state.Receiving? then Busy else NotReady;
    }

    /** Sent wholly and waiting; the buffer may hold a whole response by now. */
    ghost predicate Awaiting()
      reads this`state, this`send, this`sendOff, this`recv, this`log, this`past, this`since
      reads transport`open, transport`accepted, transport`inbound
    {
      && state.Receiving? && transport.open && transport.accepted == Wire()
      && SendingOk() && sendOff == |send.value.bytes| && ReceivedSince()
    }

    /** One call of the callback. */
    method CallBack(c: Call)
      requires Base() && !inflight && !state.Idle? && !state.Sending? && (!state.Receiving? ==> Settled())
      modifies this`state, this`send, this`recv, this`connectDeadline, this`past, this`pastOut, this`since,
        this`inflight, this`errors
      modifies this`abandoned, transport`open, transport`accepted, transport`inbound, pool`held, clock
      ensures old(clock.now) <= clock.now
      ensures Base() && !inflight && errors == old(errors) && abandoned == old(abandoned)
      ensures state == match c
        case CallClose => Disconnected
        case CallRequest => old(state)
        case CallConnect(ok) => if old(state).Connecting? || ok then Connecting else Failed
      ensures state.Receiving? ==>
        unchanged(`send) && unchanged(`recv) && unchanged(`past) && unchanged(`since) && unchanged(transport)
      ensures !state.Receiving? ==> Settled()
    {
      hide Base;
      match c {
        case CallClose => Close();
        case CallRequest => var _ := Refusal();
        case CallConnect(ok) => Connect(ok);
      }
    }

    /** `on_response_`: the callback calls `close`, `request`, which is refused, and `connect`, in any order. */
    method Callback(calls: seq<Call>)
      requires Base() && Awaiting() && !inflight
      modifies this`state, this`send, this`recv, this`connectDeadline, this`past, this`pastOut, this`since,
        this`inflight, this`errors
      modifies this`abandoned, transport`open, transport`accepted, transport`inbound, pool`held, clock
      ensures old(clock.now) <= clock.now
      ensures Base() && !inflight && errors == old(errors) && abandoned == old(abandoned)
      ensures state.Receiving? ==> Awaiting() && recv == old(recv) && send == old(send)
      ensures !state.Receiving? ==> Settled() && (state.Connecting? || state.Failed? || state.Disconnected?)
      ensures state.Connecting? <==> LeavesConnecting(calls)
    {
      hide Base, LeavesConnecting, SendingOk, ReceivedSince, Stream;
      NoCalls();
      for i := 0 to |calls|
        invariant old(clock.now) <= clock.now
        invariant Base() && !inflight && errors == old(errors) && abandoned == old(abandoned)
        invariant state.Receiving? ==> Awaiting() && recv == old(recv) && send == old(send)
        invariant !state.Receiving? ==> Settled() && (state.Connecting? || state.Failed? || state.Disconnected?)
        invariant state.Connecting? <==> LeavesConnecting(calls[..i])
      {
        LeavesSnoc(calls[..i], calls[i]);
        assert calls[..i + 1] == calls[..i] + [calls[i]];
        CallBack(calls[i]);
      }
      assert calls[..|calls|] == calls;
    }

    /** The response is taken over: it counts as delivered before the callback runs. */
    method TakeResponse(v: View, now: seq<byte>)
      requires Base() && Awaiting() && inflight && ParseResponse(recv.value.bytes).Complete?
      requires Denotes(v, now, recv.value.bytes, ParseResponse(recv.value.bytes))
      modifies this`answers, this`inflight
      ensures Base() && !inflight
      ensures |answers| == |old(answers)| + 1 && answers[..|old(answers)|] == old(answers)
      ensures AnsweredNow(|old(answers)|, old(recv))
    {
      hide Stream, ParseResponse, BuffersOk, Booked, Cleared, Calm;
      var e := Exchange(|log| - 1, |past|, since, recv.value.bytes, v.status, now[v.start..v.start + v.length]);
      assert Conns()[|past|] == transport.inbound;
      BookedSnoc(answers, Conns(), log, e);
      answers := answers + [e];
      inflight := false;
    }

    /** Answer `n` was parsed from `b` and is the one to the last request. */
    ghost predicate AnsweredNow(n: nat, b: Option<Window>)
      reads this`answers, this`log
    {
      n < |answers| && b.Some? && answers[n].stream == b.value.bytes && answers[n].request == |log| - 1
    }

    ghost method Log(calls: seq<Call>)
      requires Base()
      modifies this`callbacks
      ensures callbacks == old(callbacks) + [calls] && fault.NoFault?
      ensures if LeavesConnecting(calls) then !Calm(callbacks) else Base() && Calm(callbacks)
    {
      hide BuffersOk, Accounted, Answered, OutOk, Calm, LeavesConnecting, Stream;
      CalmSnoc(callbacks, calls);
      callbacks := callbacks + [calls];
    }

    /** After the callback.  When it left the client connecting, `consume` is asked for more than the new buffer
        holds, and only then. */
    method Finish(consumed: nat, now: seq<byte>, calls: seq<Call>)
      requires Base() && !inflight && |callbacks| + 1 == |answers| && 0 < consumed
      requires state.Connecting? <==> LeavesConnecting(calls)
      requires state.Receiving? ==> Awaiting() && consumed <= |now| == |recv.value.bytes|
      requires !state.Receiving? ==> Settled() && (state.Connecting? || state.Failed? || state.Disconnected?)
      modifies this`state, this`send, this`sendOff, this`recv, this`fault, this`callbacks
      ensures fault == if LeavesConnecting(calls) then Overrun else NoFault
      ensures Outcome() && callbacks == old(callbacks) + [calls]
    {
      hide Base, Stream, ParseResponse, Calm, LeavesConnecting, SendingOk;
      Log(calls);
      if state.Failed? || state.Disconnected? {
        return;
      }
      if consumed > recv.value.Size() {
        fault := Overrun;
        return;
      }
      KeepAlive(consumed, now);
    }

    /** The callback runs on a response that counts as delivered. */
    method Deliver(v: View, now: seq<byte>, calls: seq<Call>)
      requires Base() && Awaiting() && inflight && |callbacks| == |answers|
      requires ParseResponse(recv.value.bytes).Complete?
      requires Denotes(v, now, recv.value.bytes, ParseResponse(recv.value.bytes))
      modifies this`state, this`send, this`recv, this`connectDeadline, this`past, this`pastOut, this`since,
        this`inflight, this`errors
      modifies this`abandoned, transport`open, transport`accepted, transport`inbound, pool`held, clock
      modifies this`sendOff, this`fault, this`answers, this`callbacks
      ensures old(clock.now) <= clock.now
      ensures fault == if LeavesConnecting(calls) then Overrun else NoFault
      ensures Outcome() && !inflight && errors == old(errors) && abandoned == old(abandoned)
      ensures |answers| == |old(answers)| + 1 && callbacks == old(callbacks) + [calls]
      ensures AnsweredNow(|old(answers)|, old(recv))
    {
      hide Base, Outcome, Stream, ParseResponse, Calm, LeavesConnecting, SendingOk, Denotes;
      ConsumedFits(v, now, recv.value.bytes);
      TakeResponse(v, now);
      Callback(calls);
      Finish(v.consumed, now, calls);
    }

    /** `try_complete`. */
    method TryComplete(eof: bool, calls: seq<Call>) returns (done: bool)
      requires Base() && Awaiting() && inflight && |callbacks| == |answers|
      modifies this`state, this`send, this`recv, this`connectDeadline, this`past, this`pastOut, this`since,
        this`inflight, this`errors
      modifies this`abandoned, transport`open, transport`accepted, transport`inbound, pool`held, clock
      modifies this`sendOff, this`fault, this`answers, this`callbacks
      ensures old(clock.now) <= clock.now
      ensures fault.Wrapped? <==> ParseResponse(old(recv.value.bytes)).Overflows?
      ensures fault.Overrun? <==> ParseResponse(old(recv.value.bytes)).Complete? && LeavesConnecting(calls)
      ensures fault.NoFault? ==> done == (eof || ParseResponse(old(recv.value.bytes)).Complete?)
      ensures fault.NoFault? && !done ==> Base() && Awaiting() && inflight && recv == old(recv)
      ensures done || !fault.NoFault? ==> Outcome() && (fault.NoFault? ==> !inflight)
      ensures ParseResponse(old(recv.value.bytes)).Complete? ==>
        && errors == old(errors) && |answers| == |old(answers)| + 1 && callbacks == old(callbacks) + [calls]
        && AnsweredNow(|old(answers)|, old(recv))
       
      ensures !ParseResponse(old(recv.value.bytes)).Complete? ==>
        answers == old(answers) && callbacks == old(callbacks)
      ensures ParseResponse(old(recv.value.bytes)).Incomplete? && eof ==> state.Failed? && errors == old(errors) + 1
      ensures ParseResponse(old(recv.value.bytes)).Incomplete? && !eof ==> errors == old(errors)
      ensures abandoned == old(abandoned)
    {
      hide Stream, ParseResponse, BuffersOk, Accounted, Answered, OutOk, Calm, LeavesConnecting;
      var bytes := recv.value.bytes;
      var v, now := ParseBuffered(bytes);
      if v.overflows {
        fault := Wrapped;
        return true;
      }
      if !v.complete {
        if eof {
          Fail();
        }
        return eof;
      }
      Deliver(v, now, calls);
      return true;
    }

    /** The response is consumed, the rest moved to the front, and the client is idle again. */
    method KeepAlive(consumed: nat, now: seq<byte>)
      requires Base() && Awaiting() && !inflight && consumed <= |now| == |recv.value.bytes|
      modifies this`state, this`send, this`sendOff, this`recv
      ensures Settled() && state.Idle? && recv.value.bytes == now[consumed..]
    {
      hide Stream, Accounted, Answered, OutOk, Calm, Owned;
      var w := recv.value.(bytes := now).Consume(consumed).Compact();
      var empty := send.value.Reset(0);
      recv, send, sendOff, state := Some(w), Some(empty), 0, Idle;
    }

    /** How a run of the client ends a call: in a valid state, or stopped by a fault - an overrun exactly when some
        callback left the client connecting, and a wrap only on a response whose lengths do. */
    ghost predicate Outcome()
      reads this, pool, transport
    {
      && (fault.NoFault? ==> Valid())
      && (fault.Overrun? <==> !Calm(callbacks))
      && (fault.Wrapped? ==>
            since <= |transport.inbound| && ParseResponse(transport.inbound[since..]).Overflows?)
    }

    ghost predicate Stalled()
      reads transport`results
    {
      transport.results != [] && transport.results[|transport.results| - 1] == -EAGAIN
    }

    /** An end of stream or an error, unless read before, ends the request in flight as a failure. */
    ghost predicate ReadOutcome(results: seq<int>, before: nat)
      reads this`state, this`errors, transport`results
    {
      var rs := transport.results;
      rs != results && rs != [] && (rs[|rs| - 1] == 0 || IsError(rs[|rs| - 1])) ==>
        state.Failed? && errors == before + 1
    }

    /** Reads once into the spare room. */
    method ReadMore() returns (n: int)
      requires Settled() && state.Receiving? && recv.value.Tailroom() > 0
      modifies this`recv, transport`inbound, transport`results
      ensures transport.results == old(transport.results) + [n]
      ensures Base() && Awaiting() && inflight
      ensures n <= 0 ==> Settled() && recv == old(recv)
      ensures n > 0 ==> recv.value.Tailroom() < old(recv.value.Tailroom())
    {
      hide Stream, ParseResponse, Accounted, BuffersOk, Booked, Cleared, Calm;
      RecvFits();
      var data;
      n, data := transport.Read(recv.value.Tailroom());
      if n > 0 {
        Arrives(old(transport.inbound), since, data);
        BookedGrows(answers, past, old(transport.inbound), data, log);
        ReplaceRecv(recv.value.Append(data));
      }
    }

    lemma RecvFits()
      requires BuffersOk() && recv.Some?
      ensures recv.value.Valid()
    {
    }

    method ReplaceRecv(w: Window)
      requires BuffersOk() && recv.Some? && w.Valid() && w.id == recv.value.id && w.cap == recv.value.cap
      modifies this`recv
      ensures BuffersOk() && recv == Some(w)
    {
      hide Owned;
      recv := Some(w);
    }

    method ReplaceSend(w: Window)
      requires BuffersOk() && send.Some? && w.Valid() && w.id == send.value.id && w.cap == send.value.cap
      modifies this`send
      ensures BuffersOk() && send == Some(w)
    {
      hide Owned;
      send := Some(w);
    }

    /** `drive_recv`: reads and parses until a response is whole, the transport has no more for now, or it fails.
        What is buffered has never been a whole response, so the end of the stream is always an error. */
    method DriveRecv(calls: seq<Call>)
      requires Valid() && state.Receiving?
      modifies this`state, this`send, this`recv, this`connectDeadline, this`past, this`pastOut, this`since,
        this`inflight, this`errors
      modifies this`abandoned, transport`open, transport`accepted, transport`inbound, transport`results, pool`held,
        clock
      modifies this`sendOff, this`fault, this`answers, this`callbacks
      ensures old(clock.now) <= clock.now
      ensures Outcome() && abandoned == old(abandoned)
      ensures ReadOutcome(old(transport.results), old(errors))
      ensures fault.NoFault? && state.Receiving? ==> Stalled()
      ensures |transport.results| > |old(transport.results)| || state.Failed?
      ensures fault.NoFault? ==> !state.Sending?
      ensures callbacks == old(callbacks) || callbacks == old(callbacks) + [calls]
    {
      hide Stream, ParseResponse, BuffersOk, Accounted, Answered, OutOk, Calm, SendingOk, LeavesConnecting, AnsweredNow;
      while true
        invariant Valid() && state.Receiving? && recv.value.Valid()
        invariant old(clock.now) <= clock.now
        invariant abandoned == old(abandoned) && errors == old(errors)
        invariant callbacks == old(callbacks)
        invariant old(transport.results) <= transport.results
        invariant transport.results == old(transport.results) || transport.results[|transport.results| - 1] > 0
        decreases recv.value.Tailroom()
      {
        if recv.value.Tailroom() == 0 {
          Fail();
          return;
        }
        var n := ReadMore();
        if n == -EAGAIN {
          return;
        }
        if n == 0 {
          var _ := TryComplete(true, calls);
          return;
        }
        if n < 0 {
          Fail();
          return;
        }
        var done := TryComplete(false, calls);
        if done || !fault.NoFault? {
          return;
        }
      }
    }

    /** The first write since `before` offered `bytes`. */
    ghost predicate Offered(before: seq<Attempt>, bytes: seq<byte>)
      reads transport`tries
    {
      before < transport.tries && transport.tries[|before|].offered == bytes
    }

    lemma Wrote(was: seq<byte>)
      requires |pastOut| == |past| && Written(pastOut + [was], log, cfg.host) && transport.accepted <= Wire()
      ensures OutOk()
    {
      hide Written, Stream, AsksOn;
      WrittenOut(pastOut, was, transport.accepted, log, cfg.host);
    }

    /** Between two writes of a request. */
    ghost predicate Writing()
      reads this`state, this`send, this`sendOff, this`recv, this`fault, this`log, this`past, this`pastOut, this`since,
        this`inflight, this`answers, this`callbacks, this`errors, this`abandoned
      reads pool, transport`open, transport`accepted, transport`inbound
    {
      && Base() && inflight && state.Sending? && transport.open && SendingOk() && |callbacks| == |answers|
      && ReceivedSince() && recv.value.bytes == [] && sendOff <= |send.value.bytes|
      && (sendOff == |send.value.bytes| ==> transport.accepted == Wire())
    }

    predicate Unsent()
      reads this`send, this`sendOff
    {
      send.Some? && sendOff < |send.value.bytes|
    }

    ghost function Left(): int
      reads this`send, this`sendOff
    {
      if send.Some? then |send.value.bytes| - sendOff else 0
    }

    lemma StartWriting()
      requires Valid() && state.Sending?
      ensures Writing() && Unsent()
    {
      hide Base, Stream, AsksOn, ParseResponse, WrittenUpTo;
    }

    /** Writes once from the send buffer. */
    method WriteSome() returns (n: int)
      requires Writing() && Unsent()
      modifies this`sendOff, transport`accepted, transport`tries
      ensures n != 0 && transport.tries == old(transport.tries) + [Attempt(old(send.value.bytes[sendOff..]), n)]
      ensures n > 0 ==> Writing() && sendOff == old(sendOff) + n
      ensures n < 0 ==> Valid() && Base() && inflight && sendOff == old(sendOff) && transport.TookLess()
    {
      hide Stream, ParseResponse, BuffersOk, Accounted, Answered, Written, Calm, WrittenUpTo, AsksOn;
      ghost var was := transport.accepted;
      var wish: int := *;
      n := transport.Write(send.value.bytes[sendOff..], wish);
      if n > 0 {
        WrittenMore(was, cfg.host, Asks(), send.value.bytes, sendOff, n);
        Wrote(was);
        sendOff := sendOff + n;
      }
    }

    method BeginReceiving()
      requires Writing() && !Unsent()
      modifies this`state
      ensures Valid() && state.Receiving?
    {
      hide Base, Stream, AsksOn, ParseResponse, WrittenUpTo;
      NothingYet();
      state := Receiving;
    }

    /** `flush_send`. */
    method FlushSend(calls: seq<Call>)
      requires Valid() && state.Sending?
      modifies this`state, this`send, this`recv, this`connectDeadline, this`past, this`pastOut, this`since,
        this`inflight, this`errors
      modifies this`abandoned, transport`open, transport`accepted, transport`inbound, transport`results,
        transport`tries, pool`held, clock
      modifies this`sendOff, this`fault, this`answers, this`callbacks
      ensures old(clock.now) <= clock.now
      ensures Outcome() && abandoned == old(abandoned)
      ensures ReadOutcome(old(transport.results), old(errors))
      ensures fault.NoFault? && state.Sending? ==> transport.TookLess()
      ensures Offered(old(transport.tries), old(send.value.bytes[sendOff..]))
      ensures fault.NoFault? && state.Receiving? ==> Stalled()
      ensures callbacks == old(callbacks) || callbacks == old(callbacks) + [calls]
    {
      hide Writing, Base, Outcome, PhaseOk, Stream, ParseResponse, WrittenUpTo, AsksOn;
      StartWriting();
      while Unsent()
        invariant Writing() && state.Sending? && old(clock.now) <= clock.now
        invariant abandoned == old(abandoned) && errors == old(errors)
        invariant callbacks == old(callbacks) && transport.results == old(transport.results)
        invariant (transport.tries == old(transport.tries) && send == old(send) && sendOff == old(sendOff))
          || Offered(old(transport.tries), old(send.value.bytes[sendOff..]))
        decreases Left()
      {
        var n := WriteSome();
        if n == -EAGAIN {
          NoFaultYet();
          return;
        }
        if n < 0 {
          Fail();
          NoFaultYet();
          return;
        }
      }
      BeginReceiving();
      DriveRecv(calls);
    }

    /** The books of an accepted request. */
    ghost method Commit(a: Ask)
      requires Base() && !inflight
      modifies this`log, this`since, this`inflight
      ensures Base() && inflight && log == old(log) + [Logged(|past|, a)] && since == |transport.inbound|
      ensures Asks() == old(Asks()) + [a]
    {
      hide BuffersOk, Booked, Cleared, Written, Calm, Stream, AsksOn;
      BookedLog(answers, Conns(), log, Logged(|past|, a));
      ClearedNow(answers, past, transport.inbound, log);
      WrittenLog(Outs(), log, cfg.host, Logged(|past|, a));
      AsksSnoc(log, Logged(|past|, a), |past|);
      log, since, inflight := log + [Logged(|past|, a)], |transport.inbound|, true;
    }

    /** The request fits: it is the one in flight from here on, and nothing received before counts. */
    method Accept(bytes: seq<byte>, ghost a: Ask)
      requires Valid() && state.Idle? && bytes == RequestOf(cfg.host, a) && bytes != []
      requires |bytes| <= send.value.Tailroom()
      modifies this`state, this`send, this`sendOff, this`recv, this`log, this`since, this`inflight
      ensures Valid() && state.Sending? && log == old(log) + [Logged(|past|, a)] && since == |transport.inbound|
      ensures send.Some? && send.value.bytes == bytes && sendOff == 0
    {
      hide Stream, ParseResponse, BuffersOk, WrittenUpTo, Accounted, Answered, OutOk, Calm, AsksOn, RequestOf;
      SendFits();
      RecvFits();
      assert [] + bytes == bytes;
      ReplaceSend(send.value.Append(bytes));
      ReplaceRecv(recv.value.Reset(0));
      WrittenStart(transport.accepted, cfg.host, Asks(), a);
      sendOff, state := 0, Sending;
      Commit(a);
    }

    method SetRequestDeadline()
      modifies this`requestDeadline, clock
      ensures old(clock.now) <= clock.now
      ensures requestDeadline == if cfg.requestTimeout > 0 then clock.now + cfg.requestTimeout else 0
    {
      requestDeadline := 0;
      if cfg.requestTimeout > 0 {
        var now := clock.Now();
        requestDeadline := now + cfg.requestTimeout;
      }
    }

    lemma IdleMeans()
      requires Valid() && state.Idle?
      ensures SendEmpty() && recv.Some? && BuffersOk() && !inflight
    {
      hide BuffersOk, Accounted, Answered, OutOk, Calm, Stream;
    }

    /** `request`: accepted only when idle, and then the only one in flight; leftover bytes are dropped. */
    method Request(m: HttpRequest.Method, path: seq<byte>, headers: seq<seq<byte>>,
      body: seq<byte>, calls: seq<Call>) returns (status: Submit)
      requires Valid()
      modifies this`state, this`send, this`recv, this`connectDeadline, this`past, this`pastOut, this`since,
        this`inflight, this`errors
      modifies this`abandoned, transport`open, transport`accepted, transport`inbound, transport`results,
        transport`tries, pool`held, clock
      modifies this`sendOff, this`fault, this`answers, this`callbacks
      modifies this`requestDeadline, this`log
      ensures Outcome() && abandoned == old(abandoned)
      ensures old(clock.now) <= clock.now
      ensures log == if status.Ok? then old(log) + [Logged(|old(past)|, Ask(m, path, headers, body))] else old(log)
      ensures status.Ok? ==>
        if cfg.requestTimeout > 0 then
          old(clock.now) + cfg.requestTimeout <= requestDeadline <= clock.now + cfg.requestTimeout
        else requestDeadline == 0
      ensures status.Ok? ==> Offered(old(transport.tries), HttpRequest.Request(m, cfg.host, path, headers, body))
      ensures status.Busy? <==> old(inflight)
      ensures status.NotReady? <==> !old(inflight) && !old(state).Idle?
      ensures status.TooLarge? <==>
        old(state).Idle? && |HttpRequest.Request(m, cfg.host, path, headers, body)| > pool.cap
      ensures !status.Ok? ==>
        Valid() && state == old(state) && transport.accepted == old(transport.accepted)
      ensures callbacks == old(callbacks) || callbacks == old(callbacks) + [calls]
    {
      hide Base, PhaseOk, Outcome, HttpRequest.Request, BuffersOk;
      if !state.Idle? {
        NoFaultYet();
        status := Refusal();
        return;
      }
      NoFaultYet();
      IdleMeans();
      SendFits();
      var bytes := HttpRequest.Request(m, cfg.host, path, headers, body);
      if |bytes| > send.value.Tailroom() {
        return TooLarge;
      }
      RequestNotEmpty(m, cfg.host, path, headers, body);
      Accept(bytes, Ask(m, path, headers, body));
      assert send.value.bytes[sendOff..] == bytes;
      SetRequestDeadline();
      FlushSend(calls);
      return Ok;
    }

    lemma NoFaultYet()
      requires Settled() && |callbacks| == |answers|
      ensures fault.NoFault? && Outcome()
    {
      hide BuffersOk, Accounted, Answered, OutOk, PhaseOk, Calm;
    }

    lemma SendFits()
      requires BuffersOk() && send.Some?
      ensures send.value.Valid() && send.value.cap == pool.cap
    {
    }

    // ----- Polling -----

    /** `check_timeouts`. */
    method CheckTimeouts()
      requires Valid()
      modifies this`state, this`inflight, this`errors, transport`open, clock
      ensures old(clock.now) <= clock.now
      ensures Valid() && (state == old(state) || state.Failed?)
      ensures state == old(state) ==> errors == old(errors)
      ensures state != old(state) ==>
        || (old(state).Connecting? && 0 < connectDeadline <= clock.now)
        || (old(inflight) && 0 < requestDeadline <= clock.now)
      ensures old(state.Connecting?) && 0 < connectDeadline <= old(clock.now) ==> state.Failed?
      ensures old(inflight) && 0 < requestDeadline <= old(clock.now) ==> state.Failed? && errors == old(errors) + 1
    {
      hide Base, PhaseOk;
      if state.Connecting? && connectDeadline > 0 {
        var now := clock.Now();
        if now >= connectDeadline {
          Fail();
        }
      } else if (state.Sending? || state.Receiving?) && requestDeadline > 0 {
        var now := clock.Now();
        if now >= requestDeadline {
          Fail();
        }
      }
    }

    /** `on_ready`. */
    method OnReady(poll: Phase, calls: seq<Call>)
      requires Valid()
      modifies this`state, this`send, this`recv, this`connectDeadline, this`past, this`pastOut, this`since,
        this`inflight, this`errors
      modifies this`abandoned, transport`open, transport`accepted, transport`inbound, transport`results,
        transport`tries, pool`held, clock
      modifies this`sendOff, this`fault, this`answers, this`callbacks
      ensures old(clock.now) <= clock.now
      ensures Outcome() && abandoned == old(abandoned)
      ensures ReadOutcome(old(transport.results), old(errors))
      ensures fault.NoFault? && state.Sending? ==> transport.TookLess()
      ensures old(state).Connecting? && (old(connectDeadline) <= 0 || clock.now < old(connectDeadline)) ==>
        state == match poll
          case PhaseOpen => Idle
          case PhasePending => Connecting
          case _ => Failed
      ensures old(state).Sending? && (requestDeadline <= 0 || clock.now < requestDeadline) ==>
        Offered(old(transport.tries), old(send.value.bytes[sendOff..]))
      ensures old(state).Receiving? && (requestDeadline <= 0 || clock.now < requestDeadline) ==>
        |transport.results| > |old(transport.results)| || state.Failed?
      ensures fault.NoFault? && state.Receiving? ==> Stalled()
      ensures callbacks == old(callbacks) || callbacks == old(callbacks) + [calls]
    {
      hide Stream, ParseResponse, BuffersOk, Accounted, Answered, OutOk, Calm, SendingOk, ReceivedSince;
      CheckTimeouts();
      match state {
        case Connecting =>
          var phase := transport.PollOpen(poll);
          if phase.PhaseOpen? {
            state := Idle;
          } else if phase.PhaseFailed? || phase.PhaseClosed? {
            Fail();
          }
        case Sending => FlushSend(calls);
        case Receiving => DriveRecv(calls);
        case _ =>
      }
    }
  }

  lemma NoCalls()
    ensures !LeavesConnecting([])
  {
  }

  /** Every run: until a fault, all calls keep `Valid`; an overrun is due to a callback that left the client
      connecting, and a wrap to a response whose lengths do. */
  method AnyRun(c: Client)
    requires c.Valid()
    modifies c, c.transport, c.pool`held, c.clock
    ensures c.Outcome()
  {
    hide Client.Settled, Client.Base, Client.Outcome;
    c.NoFaultYet();
    var turns: int := *;
    while turns > 0 && c.fault.NoFault?
      invariant c.Outcome()
    {
      var choice: int, calls: seq<Call> := *, *;
      OutcomeMeans(c);
      match choice {
        case 0 =>
          var reach: bool := *;
          c.Connect(reach);
          c.NoFaultYet();
        case 1 =>
          var m: HttpRequest.Method, path: seq<byte>, headers: seq<seq<byte>>, body: seq<byte> := *, *, *, *;
          var _ := c.Request(m, path, headers, body, calls);
        case 2 =>
          c.Close();
          c.NoFaultYet();
        case 3 =>
          c.CheckTimeouts();
          c.NoFaultYet();
        case _ =>
          var poll: Phase := *;
          c.OnReady(poll, calls);
      }
      turns := turns - 1;
    }
  }

  lemma OutcomeMeans(c: Client)
    requires c.Outcome() && c.fault.NoFault?
    ensures c.Valid() && c.Settled() && c.Base() && |c.callbacks| == |c.answers|
  {
    hide Client.Base, Client.PhaseOk, Calm;
  }

  /** The overrun is real: a whole response has arrived and the callback connects anew. */
  method OverrunRun(c: Client)
    requires c.Base() && c.Awaiting() && c.inflight && |c.callbacks| == |c.answers|
    requires ParseResponse(c.recv.value.bytes).Complete?
    modifies c, c.transport, c.pool`held, c.clock
    ensures c.fault.Overrun? && |c.answers| == |old(c.answers)| + 1
  {
    hide Client.Base, Client.Outcome, ParseResponse;
    assert ConnectsAt([CallConnect(true)], 0);
    var _ := c.TryComplete(false, [CallConnect(true)]);
  }

  /** Conservation: every accepted request has been answered, has failed or was abandoned, except the one in
      flight. */
  lemma RequestsOfRun(c: Client)
    requires c.Valid()
    ensures |c.log| == |c.answers| + c.errors + c.abandoned + (if c.state.Sending? || c.state.Receiving? then 1 else 0)
  {
    hide Client.BuffersOk, Client.Answered, Client.OutOk, Client.PhaseOk, Calm;
  }

  /** On every connection of a run the transport was given the requests accepted on it, in order and nothing else: from
      what was written a peer reads the names, targets, headers and bodies of a prefix of them, and of all of them
      while the client is idle or waits for the answer. */
  lemma PeerOfRun(c: Client, conn: nat)
    requires c.Valid() && conn < |c.Outs()|
    ensures var out, asks := c.Outs()[conn], AsksOn(c.log, conn);
      var all := conn == |c.past| && (c.state.Idle? || c.state.Receiving?);
      && out <= Stream(c.cfg.host, asks) && (all ==> out == Stream(c.cfg.host, asks))
      && (AllCleanAsks(c.cfg.host, asks) ==>
            && PeerReads(out) <= AllHeard(c.cfg.host, asks)
            && (all ==> PeerReads(out) == AllHeard(c.cfg.host, asks)))
  {
    hide Stream, AsksOn, PeerReads, AllHeard, AllCleanAsks, Client.BuffersOk, Client.Accounted, Client.Answered, Calm,
      Client.SendingOk, Client.ReceivedSince, ParseResponse;
    var asks := AsksOn(c.log, conn);
    if AllCleanAsks(c.cfg.host, asks) {
      PeerHears(c.cfg.host, asks, c.Outs()[conn]);
    }
  }

  /** Every response delivered in a run was parsed from what its connection received since its request, however that
      was cut: the first `k` of these bytes are not a whole response yet or are the one delivered, and enough of
      them are. */
  lemma ResponsesOfRun(c: Client, i: nat, k: nat)
    requires c.Valid() && i < |c.answers|
    ensures var e, conns := c.answers[i], c.Conns();
      e.conn < |conns| && e.since + |e.stream| <= |conns[e.conn]| &&
      (e.since + k <= |conns[e.conn]| ==>
         var r := ParseResponse(conns[e.conn][e.since..e.since + k]);
         && (r.Incomplete? || (r.Complete? && r.status == e.status && r.body == e.body))
         && (|e.stream| <= k ==> r.Complete?))
  {
    hide Stream, ParseResponse, Client.BuffersOk, Client.PhaseOk, Client.Accounted, Calm;
    var e, conns := c.answers[i], c.Conns();
    assert Genuine(e) && Placed(e, conns);
    if e.since + k <= |conns[e.conn]| {
      AnyCut(e, conns, k);
    }
  }

  /** Every response answers a request made on its connection; no request has two responses and no byte received is
      part of two; responses come in the order of their requests and of their bytes. */
  lemma ResponsesApart(c: Client, i: nat, j: nat)
    requires c.Valid() && i < j < |c.answers|
    ensures var a, b := c.answers[i], c.answers[j];
      && a.request < b.request < |c.log| && c.log[a.request].conn == a.conn && c.log[b.request].conn == b.conn
      && (a.conn < b.conn || (a.conn == b.conn && a.since + |a.stream| <= b.since))
  {
    hide Stream, ParseResponse, Client.BuffersOk, Client.PhaseOk, Client.Accounted, Client.OutOk, Calm, Genuine, Placed;
    var a, b := c.answers[i], c.answers[j];
    assert Before(a, b.conn, b.since, b.request);
    assert Asked(a, c.log) && Asked(b, c.log);
  }

  /** While a response is awaited, no cut of what has arrived since the request is a whole response. */
  lemma NothingMissed(c: Client, k: nat)
    requires c.Valid() && c.state.Receiving? && c.since + k <= |c.transport.inbound|
    ensures ParseResponse(c.transport.inbound[c.since..c.since + k]).Incomplete?
  {
    hide Stream, ParseResponse, Client.BuffersOk, Client.Accounted, Booked, Cleared, Calm;
    var all := c.transport.inbound[c.since..];
    var cut := c.transport.inbound[c.since..c.since + k];
    assert all == cut + all[k..];
    if !ParseResponse(cut).Incomplete? {
      HttpLaws.ResponseStable(cut, all[k..]);
    }
  }

  /** Buffers: the two handles denote different buffers that nobody else holds, and no other buffer is lost. */
  lemma BuffersOfRun(c: Client, id: nat)
    requires c.Valid()
    ensures (Handle(c.send) + Handle(c.recv))[id] <= 1
    ensures id in c.others ==> (Handle(c.send) + Handle(c.recv))[id] == 0
    ensures id in c.pool.held <==> id in c.others || id in Handle(c.send) + Handle(c.recv)
  {
    hide Stream, ParseResponse, Client.PhaseOk, Client.Accounted, Client.Answered, Calm, Owned, Handle;
    OwnedMeans(c.pool.held, c.others, Handle(c.send) + Handle(c.recv), id);
  }

  lemma NothingYet()
    ensures ParseResponse([]).Incomplete?
  {
  }

  lemma RequestNotEmpty(m: HttpRequest.Method, host: seq<byte>, path: seq<byte>, headers: seq<seq<byte>>,
    body: seq<byte>)
    ensures HttpRequest.Request(m, host, path, headers, body) != []
  {
  }
}
