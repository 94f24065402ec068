/**
 The books kept on a WebSocket session: what it has enqueued against what the transport accepted, what
 the transport handed over against what was delivered, its state transitions and its timers.
 */
module WsLedger {
  import opened Arith
  import opened Bits
  import opened IoBuffer
  import opened Wrappers
  import opened WsFrame
  import opened WsDropping
  import opened WsPending
  import opened WsStreams
  import WsUpgrade

  // ----- Outbound -----

  /** The accepted bytes are the first bytes of the upgrade request and the enqueued frames. */
  ghost predicate Prefixed(accepted: seq<byte>, upgrade: seq<byte>, sent: seq<OutFrame>)
  {
    AllSendable(sent) && accepted <= upgrade + FrameStream(sent)
  }

  /** Accepted and still pending bytes together are exactly the upgrade request and the enqueued frames. */
  ghost predicate Exact(accepted: seq<byte>, upgrade: seq<byte>, sent: seq<OutFrame>, q: seq<Item>, cap: nat)
  {
    AllSendable(sent) && AllValid(q, cap) && accepted + Remaining(q, cap) == upgrade + FrameStream(sent)
  }

  lemma ExactIsPrefixed(accepted: seq<byte>, upgrade: seq<byte>, sent: seq<OutFrame>, q: seq<Item>, cap: nat)
    requires Exact(accepted, upgrade, sent, q, cap)
    ensures Prefixed(accepted, upgrade, sent)
  {
    assert accepted <= accepted + Remaining(q, cap);
  }

  lemma ExactIsValid(accepted: seq<byte>, upgrade: seq<byte>, sent: seq<OutFrame>, q: seq<Item>, cap: nat)
    requires Exact(accepted, upgrade, sent, q, cap)
    ensures AllValid(q, cap)
  {
  }

  lemma NothingSent(q: seq<Item>, cap: nat)
    requires q == []
    ensures Exact([], [], [], q, cap) && Prefixed([], [], [])
  {
    assert [] + FrameStream([]) == [] + Remaining(q, cap);
  }

  lemma PrefixedPush(accepted: seq<byte>, upgrade: seq<byte>, sent: seq<OutFrame>, f: OutFrame)
    requires Prefixed(accepted, upgrade, sent) && Sendable(f)
    ensures Prefixed(accepted, upgrade, sent + [f])
    ensures FrameStream(sent + [f]) == FrameStream(sent) + FrameBytes(f)
  {
    hide FrameBytes;
    assert (sent + [f])[..|sent|] == sent;
    assert upgrade + (FrameStream(sent) + FrameBytes(f)) == (upgrade + FrameStream(sent)) + FrameBytes(f);
  }

  lemma ExactPush(accepted: seq<byte>, upgrade: seq<byte>, sent: seq<OutFrame>, q: seq<Item>, cap: nat, f: OutFrame,
    b: Window)
    requires Exact(accepted, upgrade, sent, q, cap) && Sendable(f)
    requires Item(b, 0).Valid(cap) && b.bytes == FrameBytes(f)
    ensures Exact(accepted, upgrade, sent + [f], q + [Item(b, 0)], cap)
  {
    hide FrameBytes, FrameStream, Remaining;
    ExactIsPrefixed(accepted, upgrade, sent, q, cap);
    PrefixedPush(accepted, upgrade, sent, f);
    RemainingPush(q, b, cap);
    var rest, stream := Remaining(q, cap), FrameStream(sent);
    assert accepted + (rest + b.bytes) == (accepted + rest) + b.bytes;
    assert upgrade + (stream + b.bytes) == (upgrade + stream) + b.bytes;
  }

  lemma ExactUpgrade(accepted: seq<byte>, upgrade: seq<byte>, b: Window, cap: nat)
    requires accepted == [] && Item(b, 0).Valid(cap) && b.bytes == upgrade
    ensures Exact(accepted, upgrade, [], [Item(b, 0)], cap)
  {
    RemainingPush([], b, cap);
    assert [] + [Item(b, 0)] == [Item(b, 0)];
    assert upgrade + FrameStream([]) == upgrade;
    assert accepted + ([] + upgrade) == upgrade;
  }

  /** Writing `n` bytes of the front buffer. */
  lemma ExactWrite(accepted: seq<byte>, upgrade: seq<byte>, sent: seq<OutFrame>, q: seq<Item>, cap: nat, n: nat)
    requires Exact(accepted, upgrade, sent, q, cap) && q != [] && n <= |q[0].Rest()|
    ensures var q' := if n == |q[0].Rest()| then q[1..] else [Item(q[0].buf, q[0].sent + n)] + q[1..];
      Exact(accepted + q[0].Rest()[..n], upgrade, sent, q', cap)
  {
    hide FrameStream, Remaining;
    RemainingSend(q, n, cap);
    var some := q[0].Rest()[..n];
    var q' := if n == |q[0].Rest()| then q[1..] else [Item(q[0].buf, q[0].sent + n)] + q[1..];
    var rest := Remaining(q', cap);
    assert accepted + (some + rest) == (accepted + some) + rest;
  }

  /** What a server makes of the accepted bytes: nothing but the upgrade request, or that and then a
      prefix of the accepted messages - all of them once everything is written. */
  lemma ServerSees(accepted: seq<byte>, upgrade: seq<byte>, sent: seq<OutFrame>)
    requires Prefixed(accepted, upgrade, sent)
    ensures |accepted| < |upgrade| ==> accepted < upgrade
    ensures |accepted| >= |upgrade| ==>
      && accepted[..|upgrade|] == upgrade
      && ServerReads(accepted[|upgrade|..]) <= Accepted(sent)
      && (accepted == upgrade + FrameStream(sent) ==> ServerReads(accepted[|upgrade|..]) == Accepted(sent))
  {
    hide FrameStream, ServerReads, Accepted;
    var u := |upgrade|;
    var whole := upgrade + FrameStream(sent);
    assert whole[..u] == upgrade && whole[u..] == FrameStream(sent);
    if |accepted| >= u {
      var got := accepted[u..];
      assert got == whole[u..|accepted|] == FrameStream(sent)[..|got|];
      OutboundTheorem(sent, got);
    } else {
      assert accepted == whole[..|accepted|] == upgrade[..|accepted|];
    }
  }

  // ----- Inbound -----

  /** What became of the bytes of one connection: the answer that opened it and its header block, the
      frames processed and the messages delivered.  `closed`: the last frame was a Close.  `drop`: after how many
      frames a teardown that did not end the session threw away the message under reassembly. */
  datatype Received = Received(answer: seq<byte>, header: seq<byte>, eaten: seq<byte>, frames: seq<Frame>,
                               delivered: seq<Message>, closed: bool, drop: Option<nat>)

  const NOTHING: Received := Received([], [], [], [], [], false, None)

  /** What the processed frames say, to a session that lost what it had at `drop`. */
  ghost function Assembled(r: Received): Assembly { AssembleDrop(r.frames, r.drop) }

  /** Something was lost at the drop. */
  ghost predicate Lossy(r: Received)
  {
    r.drop.Some? && r.drop.value <= |r.frames| && Assemble(r.frames[..r.drop.value]).frag.Some?
  }

  /** `answer` is a complete answer with this header block; it is accepted, unless nothing is expected. */
  ghost predicate Answered(answer: seq<byte>, header: seq<byte>, expected: seq<byte>)
  {
    var v := WsUpgrade.Validate(answer, expected);
    v.complete && header == answer[..v.headersLen] && (v.accepted || expected == [])
  }

  /** What was delivered is what the processed frames say, and these are the first frames of the stream.  A frame
      that follows a loss is part of a stream with interleaved messages. */
  ghost predicate Sound(r: Received, inbound: seq<byte>, expected: seq<byte>)
  {
    && r.header + r.eaten <= inbound
    && (r.header != [] ==> Answered(r.answer, r.header, expected) && r.answer <= inbound)
    && Decode(r.eaten) == Decoded(r.frames, [], if r.closed then Closed else Going)
    && r.delivered == Assembled(r).out
    && (r.drop.Some? ==> r.drop.value <= |r.frames|)
    && (Lossy(r) && r.drop.value < |r.frames| ==> !Conforming(r.frames))
  }

  function PartialOf(frag: Option<Window>, op: Opcode): Option<Partial>
  {
    if frag.None? then None else Some(Partial(op, frag.value.bytes))
  }

  /** The session is in step with its stream: what it has not processed is `rest`, and its reassembly
      buffer holds what the processed frames leave unfinished. */
  ghost predicate Attached(r: Received, inbound: seq<byte>, rest: seq<byte>, frag: Option<Window>, op: Opcode)
  {
    && !r.closed && r.header != []
    && inbound == r.header + r.eaten + rest
    && Assembled(r).frag == PartialOf(frag, op)
  }

  /** More bytes arrive. */
  lemma MoreArrives(r: Received, inbound: seq<byte>, expected: seq<byte>, data: seq<byte>)
    requires Sound(r, inbound, expected)
    ensures Sound(r, inbound + data, expected)
  {
    hide Decode, Assembled, Lossy, Answered, Conforming;
    assert inbound <= inbound + data;
  }

  lemma AttachedMore(r: Received, inbound: seq<byte>, rest: seq<byte>, frag: Option<Window>, op: Opcode,
    data: seq<byte>)
    requires Attached(r, inbound, rest, frag, op)
    ensures Attached(r, inbound + data, rest + data, frag, op)
  {
    hide Assembled;
    assert r.header + r.eaten + (rest + data) == (r.header + r.eaten + rest) + data;
  }

  /** The session opens: what follows the header block is still to be parsed. */
  lemma Opens(inbound: seq<byte>, expected: seq<byte>, n: nat)
    requires WsUpgrade.Validate(inbound, expected).complete && n == WsUpgrade.Validate(inbound, expected).headersLen
    requires WsUpgrade.Validate(inbound, expected).accepted || expected == []
    ensures var r := NOTHING.(answer := inbound, header := inbound[..n]);
      Sound(r, inbound, expected) && forall op :: Attached(r, inbound, inbound[n..], None, op)
  {
    DecodeEmpty();
    DropNow([]);
    assert inbound[..n] + [] + inbound[n..] == inbound;
  }

  lemma SoundNothing(inbound: seq<byte>, expected: seq<byte>)
    ensures Sound(NOTHING, inbound, expected)
  {
    DecodeEmpty();
    DropNow([]);
  }

  lemma AttachedMeans(r: Received, inbound: seq<byte>, rest: seq<byte>, frag: Option<Window>, op: Opcode)
    requires Attached(r, inbound, rest, frag, op)
    ensures !r.closed && Assembled(r).frag == PartialOf(frag, op)
    ensures r.drop.None? ==> Assembled(r) == Assemble(r.frames)
  {
    DropNow(r.frames);
  }

  /** The frames processed are the first frames of everything received behind the header block, and all of them when
      the session waits for more bytes. */
  lemma FramesAreDecoded(r: Received, inbound: seq<byte>, expected: seq<byte>)
    requires Sound(r, inbound, expected)
    ensures |r.header| <= |inbound|
    ensures r.frames <= Decode(inbound[|r.header|..]).frames
  {
    hide Decode, Assembled, Lossy, Answered, Conforming;
    var stream := inbound[|r.header|..];
    assert r.eaten <= stream;
    var more := stream[|r.eaten|..];
    assert r.eaten + more == stream;
    DecodePrefix(r.eaten, more);
  }

  lemma FramesAreAll(r: Received, inbound: seq<byte>, expected: seq<byte>, rest: seq<byte>, frag: Option<Window>,
    op: Opcode)
    requires Sound(r, inbound, expected)
    requires Attached(r, inbound, rest, frag, op) && FrontOf(rest).Incomplete?
    ensures |r.header| <= |inbound| && Decode(inbound[|r.header|..]).frames == r.frames
  {
    hide FrontOf, Assembled, Lossy, Answered, Conforming;
    var stream := inbound[|r.header|..];
    assert stream == r.eaten + rest;
    DecodeWaits(r.eaten, rest);
  }

  /** However the stream was cut, without a drop everything delivered is a prefix of the reference decoding of the
      whole inbound stream. */
  lemma DeliveredIsDecoded(r: Received, inbound: seq<byte>, expected: seq<byte>)
    requires Sound(r, inbound, expected) && r.drop.None?
    ensures |r.header| <= |inbound|
    ensures r.delivered <= ClientReads(inbound[|r.header|..])
  {
    FramesAreDecoded(r, inbound, expected);
    hide Decode, Answered, Conforming, Lossy, Assemble;
    DropNow(r.frames);
    var all := Decode(inbound[|r.header|..]).frames;
    AssembleGrows(r.frames, all[|r.frames|..]);
    assert r.frames + all[|r.frames|..] == all;
  }

  /** The header of the frame at the front is there and says that it is larger than `cap`. */
  ghost predicate FrameExceeds(buf: seq<byte>, cap: nat)
  {
    Parse(buf).Parsed? && Parse(buf).size + Parse(buf).header.length > cap
  }

  /** A full buffer without a whole frame holds the start of a frame that is larger than it. */
  lemma FullMeansTooLarge(buf: seq<byte>)
    requires FrontOf(buf).Incomplete? && |buf| >= 14
    ensures FrameExceeds(buf, |buf|)
  {
    HeaderFits(buf);
  }

  lemma HeaderFits(buf: seq<byte>)
    requires |buf| >= 14
    ensures !Parse(buf).NeedMore?
  {
  }

  /** One more frame is processed. */
  ghost function Ate(r: Received, bytes: seq<byte>, f: Frame): Received
  {
    r.(eaten := r.eaten + bytes, frames := r.frames + [f], closed := f.header.opcode.Close?)
  }

  lemma LossyStays(r: Received, f: Frame)
    requires r.drop.Some? ==> r.drop.value <= |r.frames|
    ensures Lossy(r.(frames := r.frames + [f])) <==> Lossy(r)
  {
    if r.drop.Some? {
      assert (r.frames + [f])[..r.drop.value] == r.frames[..r.drop.value];
    }
  }

  /** The frame at the front of `buf` is processed: `msgs` are delivered for it and `frag'` is what is left
      under reassembly. */
  lemma AteIsSound(r: Received, inbound: seq<byte>, expected: seq<byte>, buf: seq<byte>,
                   frag: Option<Window>, op: Opcode, msgs: seq<Message>)
    requires Sound(r, inbound, expected) && Attached(r, inbound, buf, frag, op)
    requires FrontOf(buf).Whole? && (Lossy(r) ==> !Conforming(r.frames))
    requires Feed(Assembled(r), FrontOf(buf).frame).out == Assembled(r).out + msgs
    ensures var n, f := FrontOf(buf).size, FrontOf(buf).frame;
      var r' := Ate(r, buf[..n], f).(delivered := r.delivered + msgs);
      && Sound(r', inbound, expected) && (Lossy(r') ==> !Conforming(r'.frames))
      && inbound == r.header + (r.eaten + buf[..n]) + buf[n..]
      && Assembled(r') == Feed(Assembled(r), f)
  {
    hide Assemble, AssembleDrop, Feed, FrontOf, Decode, Answered;
    var n, f := FrontOf(buf).size, FrontOf(buf).frame;
    var r' := Ate(r, buf[..n], f).(delivered := r.delivered + msgs);
    EatFrame(r.eaten, buf);
    AssembleDropSnoc(r.frames, f, r.drop);
    ConformingSnoc(r.frames, f);
    LossyStays(r, f);
    assert Lossy(r') == Lossy(r.(frames := r.frames + [f]));
    assert buf[..n] + buf[n..] == buf;
    assert r.header + (r.eaten + buf[..n]) + buf[n..] == r.header + r.eaten + (buf[..n] + buf[n..]);
  }

  lemma AteIsAttached(r: Received, inbound: seq<byte>, expected: seq<byte>, buf: seq<byte>,
                      frag: Option<Window>, op: Opcode, msgs: seq<Message>, frag': Option<Window>, op': Opcode)
    requires Sound(r, inbound, expected) && Attached(r, inbound, buf, frag, op)
    requires FrontOf(buf).Whole? && (Lossy(r) ==> !Conforming(r.frames))
    requires !FrontOf(buf).frame.header.opcode.Close?
    requires Feed(Assembled(r), FrontOf(buf).frame) == Assembly(Assembled(r).out + msgs, PartialOf(frag', op'))
    ensures var n, f := FrontOf(buf).size, FrontOf(buf).frame;
      var r' := Ate(r, buf[..n], f).(delivered := r.delivered + msgs);
      && Sound(r', inbound, expected) && Attached(r', inbound, buf[n..], frag', op')
      && (Lossy(r') ==> !Conforming(r'.frames))
  {
    hide Assembled, Feed, FrontOf, Sound, Lossy, Conforming;
    AteIsSound(r, inbound, expected, buf, frag, op, msgs);
  }

  // ----- Pings from the server -----

  /** The payloads of the Pongs among the messages that were to be sent. */
  function Replies(tried: seq<Message>): seq<seq<byte>>
  {
    if tried == [] then []
    else
      var init, last := Replies(tried[..|tried| - 1]), tried[|tried| - 1];
      if last.opcode.Pong? then init + [last.payload] else init
  }

  /** The payloads of the Pings among the processed frames. */
  function Pinged(fs: seq<Frame>): seq<seq<byte>>
  {
    if fs == [] then []
    else
      var init, last := Pinged(fs[..|fs| - 1]), fs[|fs| - 1];
      if last.header.opcode.Ping? then init + [last.payload] else init
  }

  lemma RepliesSnoc(tried: seq<Message>, m: Message)
    ensures Replies(tried + [m]) == if m.opcode.Pong? then Replies(tried) + [m.payload] else Replies(tried)
  {
    assert (tried + [m])[..|tried|] == tried;
  }

  /** The number of Pongs among the processed frames. */
  function Pongs(fs: seq<Frame>): nat
  {
    if fs == [] then 0 else Pongs(fs[..|fs| - 1]) + (if fs[|fs| - 1].header.opcode.Pong? then 1 else 0)
  }

  lemma FramesSnoc(fs: seq<Frame>, f: Frame)
    ensures Pinged(fs + [f]) == if f.header.opcode.Ping? then Pinged(fs) + [f.payload] else Pinged(fs)
    ensures Pongs(fs + [f]) == Pongs(fs) + (if f.header.opcode.Pong? then 1 else 0)
  {
    assert (fs + [f])[..|fs|] == fs;
  }

  lemma NothingReplied()
    ensures Replies([]) == Pinged([]) && Heards([]) == Pongs([])
  {
  }

  // ----- What callbacks and sends may do to a session that reads -----

  datatype State = Disconnected | Connecting | Upgrading | Open | Closing | Failed

  predicate Reading(s: State) { s.Open? || s.Closing? }

  predicate Ended(s: State) { s.Disconnected? || s.Failed? }

  datatype Snapshot = Snapshot(state: State, frag: Option<Window>, open: bool, rx: Received)

  /** Either nothing but a change from Open to Closing, or a teardown - after which a session that was
      being closed is Closing again and has dropped the message under reassembly. */
  ghost predicate After(a: Snapshot, b: Snapshot)
  {
    || (b.(state := a.state) == a && (b.state == a.state || (a.state.Open? && b.state.Closing?)))
    || (&& b.frag.None? && !b.open && (Ended(b.state) || b.state.Closing?)
        && b.rx.(drop := a.rx.drop) == a.rx
        && (b.rx.drop == a.rx.drop || (a.rx.drop.None? && b.rx.drop == Some(|a.rx.frames|)))
        && (b.state.Closing? ==> a.rx.drop.None? && b.rx.drop.Some?))
  }

  lemma AfterRefl(a: Snapshot)
    ensures After(a, a)
  {
  }

  lemma AfterTransitive(a: Snapshot, b: Snapshot, c: Snapshot)
    requires After(a, b) && After(b, c)
    ensures After(a, c)
  {
  }

  /** Dropping at the last processed frame keeps the books. */
  lemma DroppedNow(r: Received)
    requires r.drop.None?
    ensures var d := r.(drop := Some(|r.frames|));
      Assembled(d).out == Assembled(r).out && Assembled(d).frag.None? && (Lossy(d) <==> Assembled(r).frag.Some?)
  {
    DropNow(r.frames);
    assert r.frames[..|r.frames|] == r.frames;
  }

  lemma AfterIsAttached(a: Snapshot, b: Snapshot, inbound: seq<byte>, rest: seq<byte>, op: Opcode)
    requires After(a, b) && Attached(a.rx, inbound, rest, a.frag, op)
    requires Reading(b.state)
    ensures Attached(b.rx, inbound, rest, b.frag, op)
    ensures (a.rx.drop.Some? ==> !a.open) ==> (b.rx.drop.Some? ==> !b.open)
  {
    hide Assembled;
    if a.rx.drop.None? {
      DroppedNow(a.rx);
    }
  }

  lemma AfterWithoutFrag(a: Snapshot, b: Snapshot)
    requires After(a, b)
    ensures After(a.(frag := None), b.(frag := None))
  {
  }

  /** After a callback the session is still in step. */
  lemma AfterCallback(a: Snapshot, b: Snapshot, inbound: seq<byte>, rest: seq<byte>, op: Opcode)
    requires After(a, b) && Attached(a.rx, inbound, rest, a.frag, op)
    requires (a.rx.drop.Some? ==> !a.open) && (Lossy(a.rx) ==> !Conforming(a.rx.frames))
    requires a.rx.drop.None? && Assembled(a.rx).frag.Some? ==> !Conforming(a.rx.frames)
    requires Reading(b.state)
    ensures Attached(b.rx, inbound, rest, b.frag, op)
    ensures (b.rx.drop.Some? ==> !b.open) && (Lossy(b.rx) ==> !Conforming(b.rx.frames))
  {
    hide Assembled, Lossy, Conforming;
    if a.rx.drop.None? {
      DroppedNow(a.rx);
    }
  }

  lemma AfterIsSound(a: Snapshot, b: Snapshot, inbound: seq<byte>, expected: seq<byte>)
    requires After(a, b) && Sound(a.rx, inbound, expected)
    ensures Sound(b.rx, inbound, expected)
  {
    hide Assembled, Lossy, Conforming, Decode, Answered;
    if a.rx.drop.None? {
      DroppedNow(a.rx);
    }
  }

  // ----- Transitions -----

  predicate Allowed(a: State, b: State)
  {
    (b.Open? ==> a.Upgrading?) && (b.Upgrading? ==> a.Connecting?)
  }

  predicate StepAllowed(trail: seq<State>, i: nat)
    requires 0 < i < |trail|
  {
    Allowed(trail[i - 1], trail[i])
  }

  predicate Trail(trail: seq<State>, now: State)
  {
    && trail != [] && trail[|trail| - 1] == now
    && forall i :: 0 < i < |trail| ==> StepAllowed(trail, i)
  }

  lemma TrailStarts(s: State)
    ensures Trail([s], s)
  {
  }

  lemma TrailGrows(trail: seq<State>, now: State, next: State)
    requires Trail(trail, now) && Allowed(now, next)
    ensures Trail(trail + [next], next)
  {
    var more := trail + [next];
    forall i | 0 < i < |more| ensures StepAllowed(more, i) {
      assert i < |trail| ==> StepAllowed(trail, i);
    }
  }

  // ----- Timers -----

  const SECOND: int := 1_000_000_000
  const RECONNECT_MAX: int := 30 * SECOND

  /** The delay after `k` automatic attempts in a row: 2^(k-1) seconds, at most 30. */
  function Backoff(k: nat): int
  {
    if k == 0 then 0 else (if Pow2(k - 1) < 30 then Pow2(k - 1) else 30) * SECOND
  }

  function NextDelay(delay: int): int
  {
    if delay == 0 then SECOND else if delay * 2 > RECONNECT_MAX then RECONNECT_MAX else delay * 2
  }

  lemma NextDelayIsBackoff(k: nat)
    ensures NextDelay(Backoff(k)) == Backoff(k + 1)
  {
    if k > 0 {
      assert Pow2(k) == 2 * Pow2(k - 1);
    }
  }

  /** The heartbeat of a connection: pings sent, with their times, and Pongs processed. */
  datatype Beat = Asked(at: int) | Heard

  /** Any two pings are at least the interval apart, and the next one is not due earlier. */
  ghost predicate Spaced(beats: seq<Beat>, interval: int, next: int)
  {
    && (forall i, j ::
          0 <= i < j < |beats| && beats[i].Asked? && beats[j].Asked? ==> beats[i].at + interval <= beats[j].at)
    && (forall i :: 0 <= i < |beats| && beats[i].Asked? ==> beats[i].at + interval <= next)
  }

  /** A Pong was processed strictly between `i` and `j`. */
  ghost predicate HeardBetween(beats: seq<Beat>, i: nat, j: nat)
    requires j <= |beats|
  {
    exists k :: i < k < j && beats[k].Heard?
  }

  /** Between any two pings a Pong was processed, and after the last one too unless the session awaits it. */
  ghost predicate Alternate(beats: seq<Beat>, awaiting: bool)
  {
    && (forall i, j :: 0 <= i < j < |beats| && beats[i].Asked? && beats[j].Asked? ==> HeardBetween(beats, i, j))
    && (!awaiting ==> forall i :: 0 <= i < |beats| && beats[i].Asked? ==> HeardBetween(beats, i, |beats|))
  }

  function Heards(beats: seq<Beat>): nat
  {
    if beats == [] then 0 else Heards(beats[..|beats| - 1]) + (if beats[|beats| - 1].Heard? then 1 else 0)
  }

  lemma HeardsSnoc(beats: seq<Beat>, b: Beat)
    ensures Heards(beats + [b]) == Heards(beats) + (if b.Heard? then 1 else 0)
  {
    assert (beats + [b])[..|beats|] == beats;
  }

  lemma NoBeats(interval: int, next: int, awaiting: bool)
    ensures Spaced([], interval, next) && Alternate([], awaiting)
  {
  }

  lemma HeardEarlier(beats: seq<Beat>, b: Beat, i: nat, j: nat)
    requires j <= |beats| && HeardBetween(beats, i, j)
    ensures HeardBetween(beats + [b], i, j)
  {
    var k :| i < k < j && beats[k].Heard?;
    assert (beats + [b])[k].Heard?;
  }

  lemma SpacedPing(beats: seq<Beat>, interval: int, next: int, now: int)
    requires Spaced(beats, interval, next) && next <= now && interval > 0
    ensures Spaced(beats + [Asked(now)], interval, now + interval)
  {
  }

  /** A ping sent while none is awaited keeps the heartbeat alternating. */
  lemma AlternatePing(beats: seq<Beat>, now: int)
    requires Alternate(beats, false)
    ensures Alternate(beats + [Asked(now)], true)
  {
    var more := beats + [Asked(now)];
    forall i, j | 0 <= i < j < |more| && more[i].Asked? && more[j].Asked? ensures HeardBetween(more, i, j) {
      assert more[i] == beats[i];
      assert j < |beats| ==> more[j] == beats[j];
      HeardEarlier(beats, Asked(now), i, j);
    }
  }

  /** A Pong answers whatever is outstanding. */
  lemma PongHeard(beats: seq<Beat>, interval: int, next: int, awaiting: bool)
    requires Spaced(beats, interval, next) && Alternate(beats, awaiting)
    ensures Spaced(beats + [Heard], interval, next) && Alternate(beats + [Heard], false)
  {
    var more := beats + [Heard];
    forall i, j | 0 <= i < j < |more| && more[i].Asked? && more[j].Asked? ensures HeardBetween(more, i, j) {
      assert more[i] == beats[i] && more[j] == beats[j];
      HeardEarlier(beats, Heard, i, j);
    }
    forall i | 0 <= i < |more| && more[i].Asked? ensures HeardBetween(more, i, |more|) {
      assert more[|beats|].Heard?;
    }
  }
}
