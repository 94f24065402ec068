/**
 The books of the HTTP client, on values: which bytes of which connection every delivered response was parsed from,
 what was written, and what response callbacks call.
 */
module HttpBooks {
  import opened Bits
  import opened HttpPeer
  import opened HttpResponse
  import HttpLaws

  // ----- Responses -----

  /** An accepted request and the connection it was made on. */
  datatype Logged = Logged(conn: nat, ask: Ask)

  /** A delivered response: the request it answers, the connection it came on, how much had been received there when
      the request was accepted, and the bytes received since. */
  datatype Exchange = Exchange(request: nat, conn: nat, since: nat, stream: seq<byte>, status: nat, body: seq<byte>)

  ghost predicate Genuine(e: Exchange)
  {
    var r := ParseResponse(e.stream);
    r.Complete? && r.status == e.status && r.body == e.body
  }

  /** `conns` is what was received on each connection; the bytes of `e` are where `e` says. */
  ghost predicate Placed(e: Exchange, conns: seq<seq<byte>>)
  {
    e.conn < |conns| && e.since <= |conns[e.conn]| && e.stream <= conns[e.conn][e.since..]
  }

  /** `e` answers a request made on its connection. */
  ghost predicate Asked(e: Exchange, log: seq<Logged>)
  {
    e.request < |log| && log[e.request].conn == e.conn
  }

  /** All bytes of `e` came before position `since` of connection `conn`, and its request before request `n`. */
  ghost predicate Before(e: Exchange, conn: nat, since: nat, n: nat)
  {
    (e.conn < conn || (e.conn == conn && e.since + |e.stream| <= since)) && e.request < n
  }

  ghost predicate Cleared(es: seq<Exchange>, conn: nat, since: nat, n: nat)
  {
    forall i :: 0 <= i < |es| ==> Before(es[i], conn, since, n)
  }

  /** Every response was parsed from bytes that were received on the connection of its request; no byte belongs to two
      responses and no request has two. */
  ghost predicate Booked(es: seq<Exchange>, conns: seq<seq<byte>>, log: seq<Logged>)
  {
    && (forall i :: 0 <= i < |es| ==> Genuine(es[i]) && Placed(es[i], conns) && Asked(es[i], log))
    && (forall i, j :: 0 <= i < j < |es| ==> Before(es[i], es[j].conn, es[j].since, es[j].request))
  }

  lemma NothingBooked(conns: seq<seq<byte>>, log: seq<Logged>)
    ensures Booked([], conns, log)
  {
  }

  lemma PlacedGrows(e: Exchange, past: seq<seq<byte>>, inbound: seq<byte>, data: seq<byte>)
    requires Placed(e, past + [inbound])
    ensures Placed(e, past + [inbound + data])
  {
    if e.conn == |past| {
      assert (inbound + data)[e.since..] == inbound[e.since..] + data;
    }
  }

  lemma BookedGrows(es: seq<Exchange>, past: seq<seq<byte>>, inbound: seq<byte>, data: seq<byte>, log: seq<Logged>)
    requires Booked(es, past + [inbound], log)
    ensures Booked(es, past + [inbound + data], log)
  {
    hide Genuine, Placed, Before, Asked;
    forall i | 0 <= i < |es| ensures Placed(es[i], past + [inbound + data]) {
      PlacedGrows(es[i], past, inbound, data);
    }
  }

  lemma BookedDial(es: seq<Exchange>, conns: seq<seq<byte>>, log: seq<Logged>)
    requires Booked(es, conns, log)
    ensures Booked(es, conns + [[]], log)
  {
    hide Genuine, Before, Asked;
    forall i | 0 <= i < |es| ensures Placed(es[i], conns + [[]]) {
      assert (conns + [[]])[es[i].conn] == conns[es[i].conn];
    }
  }

  lemma BookedLog(es: seq<Exchange>, conns: seq<seq<byte>>, log: seq<Logged>, l: Logged)
    requires Booked(es, conns, log)
    ensures Booked(es, conns, log + [l])
  {
    hide Genuine, Placed, Before;
    forall i | 0 <= i < |es| ensures Asked(es[i], log + [l]) {
      assert (log + [l])[es[i].request] == log[es[i].request];
    }
  }

  lemma ClearedNow(es: seq<Exchange>, past: seq<seq<byte>>, inbound: seq<byte>, log: seq<Logged>)
    requires Booked(es, past + [inbound], log)
    ensures Cleared(es, |past|, |inbound|, |log|)
  {
    hide Genuine;
    forall i | 0 <= i < |es| ensures Before(es[i], |past|, |inbound|, |log|) {
      assert Placed(es[i], past + [inbound]) && Asked(es[i], log);
    }
  }

  lemma BookedSnoc(es: seq<Exchange>, conns: seq<seq<byte>>, log: seq<Logged>, e: Exchange)
    requires Booked(es, conns, log) && Genuine(e) && Placed(e, conns) && Asked(e, log)
    requires Cleared(es, e.conn, e.since, e.request)
    ensures Booked(es + [e], conns, log)
  {
    hide Genuine, Placed, Before, Asked;
  }

  /** What was delivered does not depend on how the stream was cut: the first `k` bytes received since the request
      are not a whole response yet, or they are the one delivered; and enough of them are. */
  lemma AnyCut(e: Exchange, conns: seq<seq<byte>>, k: nat)
    requires Genuine(e) && Placed(e, conns) && e.since + k <= |conns[e.conn]|
    ensures var r := ParseResponse(conns[e.conn][e.since..e.since + k]);
      && (r.Incomplete? || (r.Complete? && r.status == e.status && r.body == e.body))
      && (|e.stream| <= k ==> r.Complete?)
  {
    hide ParseResponse;
    var cut := conns[e.conn][e.since..e.since + k];
    if |e.stream| <= k {
      assert e.stream + cut[|e.stream|..] == cut;
      HttpLaws.ResponseStable(e.stream, cut[|e.stream|..]);
    } else {
      assert cut + e.stream[k..] == e.stream;
      if !ParseResponse(cut).Incomplete? {
        HttpLaws.ResponseStable(cut, e.stream[k..]);
      }
    }
  }

  // ----- Requests -----

  /** The requests accepted on connection `c`, in order. */
  function AsksOn(log: seq<Logged>, c: nat): seq<Ask>
  {
    if log == [] then []
    else
      var l := log[|log| - 1];
      AsksOn(log[..|log| - 1], c) + if l.conn == c then [l.ask] else []
  }

  lemma AsksSnoc(log: seq<Logged>, l: Logged, c: nat)
    ensures AsksOn(log + [l], c) == AsksOn(log, c) + if l.conn == c then [l.ask] else []
  {
    assert (log + [l])[..|log|] == log;
  }

  /** `outs` is what was written on each connection: never anything but the requests accepted on it, in order. */
  ghost predicate Written(outs: seq<seq<byte>>, log: seq<Logged>, host: seq<byte>)
  {
    && (forall i :: 0 <= i < |log| ==> log[i].conn < |outs|)
    && (forall c :: 0 <= c < |outs| ==> outs[c] <= Stream(host, AsksOn(log, c)))
  }

  lemma {:induction false} NoneYet(log: seq<Logged>, c: nat)
    requires forall i :: 0 <= i < |log| ==> log[i].conn < c
    ensures AsksOn(log, c) == []
    decreases |log|
  {
    if log != [] {
      NoneYet(log[..|log| - 1], c);
    }
  }

  lemma WrittenDial(outs: seq<seq<byte>>, log: seq<Logged>, host: seq<byte>)
    requires Written(outs, log, host)
    ensures Written(outs + [[]], log, host) && AsksOn(log, |outs|) == []
  {
    hide Stream, AsksOn;
    NoneYet(log, |outs|);
  }

  lemma WrittenOut(past: seq<seq<byte>>, out: seq<byte>, now: seq<byte>, log: seq<Logged>, host: seq<byte>)
    requires Written(past + [out], log, host) && now <= Stream(host, AsksOn(log, |past|))
    ensures Written(past + [now], log, host)
  {
    hide Stream, AsksOn;
    forall c | 0 <= c < |past| + 1 ensures (past + [now])[c] <= Stream(host, AsksOn(log, c)) {
      assert c < |past| ==> (past + [now])[c] == (past + [out])[c];
    }
  }

  lemma StreamSnoc(host: seq<byte>, asks: seq<Ask>, a: Ask)
    ensures Stream(host, asks + [a]) == Stream(host, asks) + RequestOf(host, a)
  {
    assert (asks + [a])[..|asks|] == asks;
  }

  lemma WrittenLog(outs: seq<seq<byte>>, log: seq<Logged>, host: seq<byte>, l: Logged)
    requires Written(outs, log, host) && l.conn < |outs|
    ensures Written(outs, log + [l], host)
  {
    hide Stream, AsksOn, RequestOf;
    forall c | 0 <= c < |outs| ensures outs[c] <= Stream(host, AsksOn(log + [l], c)) {
      AsksSnoc(log, l, c);
      StreamSnoc(host, AsksOn(log, c), l.ask);
      assert AsksOn(log, c) + [] == AsksOn(log, c);
    }
  }

  /** All requests before the last are written, and the first `n` bytes of that one. */
  ghost predicate WrittenUpTo(out: seq<byte>, host: seq<byte>, asks: seq<Ask>, last: seq<byte>, n: nat)
  {
    && asks != [] && last == RequestOf(host, asks[|asks| - 1]) && n <= |last|
    && out == Stream(host, asks[..|asks| - 1]) + last[..n]
  }

  lemma WrittenStart(out: seq<byte>, host: seq<byte>, asks: seq<Ask>, a: Ask)
    requires out == Stream(host, asks)
    ensures WrittenUpTo(out, host, asks + [a], RequestOf(host, a), 0)
  {
    assert (asks + [a])[..|asks|] == asks;
    assert Stream(host, asks) + RequestOf(host, a)[..0] == Stream(host, asks);
  }

  lemma WrittenMore(out: seq<byte>, host: seq<byte>, asks: seq<Ask>, last: seq<byte>, n: nat, k: nat)
    requires WrittenUpTo(out, host, asks, last, n) && n + k <= |last|
    ensures WrittenUpTo(out + last[n..][..k], host, asks, last, n + k)
    ensures out + last[n..][..k] <= Stream(host, asks)
    ensures n + k == |last| ==> out + last[n..][..k] == Stream(host, asks)
  {
    hide RequestOf;
    var before := Stream(host, asks[..|asks| - 1]);
    assert last[..n] + last[n..][..k] == last[..n + k];
    assert before + last[..n] + last[n..][..k] == before + last[..n + k];
    assert last[..n + k] + last[n + k..] == last;
    assert before + last[..n + k] + last[n + k..] == before + last;
    assert n + k == |last| ==> last[..n + k] == last;
  }

  // ----- Callbacks -----

  /** What a response callback may call.  `ok`: whether the environment lets the connection attempt start, should
      the call make one. */
  datatype Call = CallClose | CallRequest | CallConnect(ok: bool)

  /** A connection attempt starts at `i` and is not given up again. */
  predicate ConnectsAt(calls: seq<Call>, i: nat)
    requires i < |calls|
  {
    calls[i] == CallConnect(true) && forall j :: i < j < |calls| ==> !calls[j].CallClose?
  }

  predicate LeavesConnecting(calls: seq<Call>)
  {
    exists i :: 0 <= i < |calls| && ConnectsAt(calls, i)
  }

  lemma StillConnects(calls: seq<Call>, c: Call, i: nat)
    requires i <= |calls| && ConnectsAt(calls + [c], i)
    ensures c == CallConnect(true) || (i < |calls| && ConnectsAt(calls, i) && !c.CallClose?)
  {
    var more := calls + [c];
    assert more[|calls|] == c;
    assert forall j :: 0 <= j < |calls| ==> more[j] == calls[j];
  }

  lemma LeavesSnoc(calls: seq<Call>, c: Call)
    ensures LeavesConnecting(calls + [c]) <==>
      c == CallConnect(true) || (LeavesConnecting(calls) && !c.CallClose?)
  {
    var more := calls + [c];
    if LeavesConnecting(more) {
      var i :| 0 <= i < |more| && ConnectsAt(more, i);
      StillConnects(calls, c, i);
    }
    if c == CallConnect(true) {
      assert ConnectsAt(more, |calls|);
    } else if LeavesConnecting(calls) && !c.CallClose? {
      var i :| 0 <= i < |calls| && ConnectsAt(calls, i);
      assert ConnectsAt(more, i);
    }
  }

  /** No callback so far left the client connecting. */
  ghost predicate Calm(callbacks: seq<seq<Call>>)
  {
    forall i :: 0 <= i < |callbacks| ==> !LeavesConnecting(callbacks[i])
  }

  lemma CalmSnoc(callbacks: seq<seq<Call>>, calls: seq<Call>)
    requires Calm(callbacks)
    ensures Calm(callbacks + [calls]) <==> !LeavesConnecting(calls)
  {
    hide LeavesConnecting;
    var more := callbacks + [calls];
    assert more[|callbacks|] == calls;
    assert forall i :: 0 <= i < |callbacks| ==> more[i] == callbacks[i];
  }
}
