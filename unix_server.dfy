/**
 * The Unix-domain-socket server's per-connection dispatch loop. Each round reads a 4-byte
 * length header and a body into pooled buffers, dispatches the body's opcode, sends the framed
 * reply (or the error sentinel) with a send loop, and releases both buffers in `finally` blocks.
 */
module UnixServer {
  import opened Bytes
  import opened Wrappers
  import opened UmbralProtocol
  import opened Channel
  import opened Transport
  import opened Handlers
  import opened Diagnostics

  /** Why the loop for one connection stopped. */
  datatype Exit =
    | PeerClosed       // a read of 0 bytes inside the header or the body
    | RentFailed       // the declared length is negative or larger than any array
    | EmptyFrame       // a length of 0: the body has no opcode byte
    | SentinelFailed   // sending the error sentinel threw

  datatype Outcome = Next(consumed: nat) | Ended(exit: Exit)

  /**
   * One round of the loop: the bytes sent, the lengths added to the received and sent
   * counters, the send script left, and whether the loop goes on (having consumed a frame).
   */
  datatype Round = Round(written: seq<byte>, received: nat, counted: nat, steps: seq<SendStep>,
                         outcome: Outcome)

  /** The sentinel send after a failure, and what it leaves. */
  function SentinelRound(prefix: seq<byte>, opcode: byte, len: nat, counted: nat,
                         steps: seq<SendStep>): Round
  {
    var e := Transmit(steps, Sentinel(opcode));
    Round(prefix + Sentinel(opcode)[..e.accepted], len, counted, e.rest,
          if e.ok then Next(4 + len) else Ended(SentinelFailed))
  }

  /** One round on the bytes `pending` the peer will still send and the send script `steps`. */
  function UnixRound(handlers: map<byte, Handler>, pending: seq<byte>, steps: seq<SendStep>): (r: Round)
    ensures r.outcome.Next? ==> 5 <= r.outcome.consumed <= |pending|
  {
    if |pending| < 4 then Round([], 0, 0, steps, Ended(PeerClosed))
    else
      var len := DeclaredLength(pending);
      if len < 0 || len > MaxArrayLength then Round([], 0, 0, steps, Ended(RentFailed))
      else BodyRound(handlers, pending[4..], len, steps)
  }

  /** The rest of a round once a header declaring `len` has been read and a body buffer rented. */
  function BodyRound(handlers: map<byte, Handler>, pending: seq<byte>, len: nat, steps: seq<SendStep>): (r: Round)
    ensures r.outcome.Next? ==> r.outcome == Next(4 + len) && 1 <= len <= |pending|
  {
    if |pending| < len then Round([], 0, 0, steps, Ended(PeerClosed))
    else if len == 0 then Round([], 0, 0, steps, Ended(EmptyFrame))
    else Dispatch(handlers, pending[0], pending[1..len], len, steps)
  }

  /**
   * Answering a complete frame of length `len`: the response frame, and the sentinel if the
   * handler is missing or fails or the response cannot be sent.
   */
  function Dispatch(handlers: map<byte, Handler>, opcode: byte, payload: seq<byte>, len: nat,
                    steps: seq<SendStep>): (r: Round)
    ensures r.received == len
    ensures r.counted == if Response(handlers, opcode, payload).Some? then |Response(handlers, opcode, payload).value| else 0
    ensures r.outcome == Next(4 + len) || r.outcome == Ended(SentinelFailed)
  {
    match Response(handlers, opcode, payload)
    case Some(response) =>
      var t := Transmit(steps, response);
      if t.ok then Round(response, len, |response|, t.rest, Next(4 + len))
      else SentinelRound(response[..t.accepted], opcode, len, |response|, t.rest)
    case None => SentinelRound([], opcode, len, 0, steps)
  }

  /** Everything one connection produces: bytes sent, counter increments, and why it ended. */
  datatype Served = Served(written: seq<byte>, received: nat, counted: nat, exit: Exit)

  function UnixServe(handlers: map<byte, Handler>, pending: seq<byte>, steps: seq<SendStep>): Served
    decreases |pending|
  {
    var r := UnixRound(handlers, pending, steps);
    match r.outcome
    case Ended(exit) => Served(r.written, r.received, r.counted, exit)
    case Next(consumed) =>
      var rest := UnixServe(handlers, pending[consumed..], r.steps);
      Served(r.written + rest.written, r.received + rest.received, r.counted + rest.counted, rest.exit)
  }

  /** A round that consumes a frame is followed by the rest of the connection. */
  lemma UnixServeNext(handlers: map<byte, Handler>, pending: seq<byte>, steps: seq<SendStep>)
    requires UnixRound(handlers, pending, steps).outcome.Next?
    ensures var r := UnixRound(handlers, pending, steps);
            var rest := UnixServe(handlers, pending[r.outcome.consumed..], r.steps);
            UnixServe(handlers, pending, steps) ==
              Served(r.written + rest.written, r.received + rest.received, r.counted + rest.counted, rest.exit)
  {
  }

  /** A round that ends the connection is all the connection produces. */
  lemma UnixServeEnded(handlers: map<byte, Handler>, pending: seq<byte>, steps: seq<SendStep>)
    requires UnixRound(handlers, pending, steps).outcome.Ended?
    ensures var r := UnixRound(handlers, pending, steps);
            UnixServe(handlers, pending, steps) == Served(r.written, r.received, r.counted, r.outcome.exit)
  {
  }

  /** The send loop: call send on the unsent rest until every byte is taken; a failing call throws. */
  method SendAll(conn: Stream, bytes: seq<byte>) returns (ok: bool)
    modifies conn
    ensures var t := Transmit(old(conn.steps), bytes);
            ok == t.ok && conn.sent == old(conn.sent) + bytes[..t.accepted] && conn.steps == t.rest
    ensures conn.incoming == old(conn.incoming) && conn.flushedTo == old(conn.flushedTo)
    ensures conn.connected == old(conn.connected)
  {
    var total := 0;
    while total < |bytes|
      invariant 0 <= total <= |bytes|
      invariant var t := Transmit(conn.steps, bytes[total..]);
                Transmit(old(conn.steps), bytes) == Transfer(total + t.accepted, t.ok, t.rest)
      invariant conn.sent == old(conn.sent) + bytes[..total]
      invariant conn.incoming == old(conn.incoming) && conn.flushedTo == old(conn.flushedTo)
      invariant conn.connected == old(conn.connected)
      decreases |conn.steps|
    {
      var taken := SendRest(conn, bytes, total);
      if taken.None? {
        return false;
      }
      LogExtends(old(conn.sent), bytes, total, taken.value);
      total := total + taken.value;
    }
    TransmitNothing(conn.steps, bytes);
    return true;
  }

  /** One send call of the bytes after the first `total`, and where it leaves the transfer. */
  method SendRest(conn: Stream, bytes: seq<byte>, total: nat) returns (taken: Option<nat>)
    requires total < |bytes|
    modifies conn
    ensures taken.None? ==> Transmit(old(conn.steps), bytes[total..]) == Transfer(0, false, conn.steps)
                            && conn.sent == old(conn.sent)
    ensures taken.Some? ==>
              && total + taken.value <= |bytes| && |conn.steps| < |old(conn.steps)|
              && conn.sent == old(conn.sent) + bytes[total..][..taken.value]
              && Transmit(old(conn.steps), bytes[total..])
                 == var t := Transmit(conn.steps, bytes[total + taken.value..]);
                    Transfer(taken.value + t.accepted, t.ok, t.rest)
    ensures conn.incoming == old(conn.incoming) && conn.flushedTo == old(conn.flushedTo)
    ensures conn.connected == old(conn.connected)
  {
    ghost var before := conn.steps;
    taken := conn.Send(bytes[total..]);
    if taken.None? {
      TransmitRefused(before, bytes, total);
    } else {
      TransmitAfterAccept(before, bytes, total, taken.value);
    }
  }

  class UnixUmbralSocketServer {
    var handlers: map<byte, Handler>
    var activeConnections: int
    const pool: ArrayPool
    const events: UmbralSocketEventSource

    constructor (pool: ArrayPool, events: UmbralSocketEventSource)
      ensures this.pool == pool && this.events == events
      ensures handlers == map[] && activeConnections == 0
    {
      this.pool, this.events := pool, events;
      handlers, activeConnections := map[], 0;
    }

    /** Maps `opcode` to `handler`, replacing any earlier one. */
    method RegisterHandler(opcode: byte, handler: Handler)
      modifies this
      ensures handlers == old(handlers)[opcode := handler]
      ensures activeConnections == old(activeConnections)
    {
      handlers := handlers[opcode := handler];
    }

    /** One iteration of the dispatch loop, both pooled buffers released on every path. */
    method ServeFrame(conn: Stream) returns (outcome: Outcome, ghost r: Round)
      requires pool.Valid()
      modifies conn, pool, pool.Repr, events`bytesReceived, events`bytesSent
      ensures r == UnixRound(handlers, old(conn.Pending()), old(conn.steps))
      ensures outcome == r.outcome && conn.sent == old(conn.sent) + r.written && conn.steps == r.steps
              && events.bytesReceived == old(events.bytesReceived) + r.received
              && events.bytesSent == old(events.bytesSent) + r.counted
              && (outcome.Next? ==> conn.Pending() == old(conn.Pending())[outcome.consumed..])
      ensures pool.Valid() && pool.lent == old(pool.lent) && fresh(pool.Repr - old(pool.Repr))
    {
      ghost var pending, steps := conn.Pending(), conn.steps;
      r := UnixRound(handlers, pending, steps);
      var lenOwner, ok := RentAndRead(pool, conn, 4);
      if !ok {
        lenOwner.Dispose();
        return Ended(PeerClosed), r;
      }
      var len := Int32(U32BE(lenOwner.buffer[..4]));
      if len < 0 || len > MaxArrayLength {
        // the pool cannot rent such a length: the throw reaches the outer catch
        lenOwner.Dispose();
        return Ended(RentFailed), r;
      }
      assert UnixRound(handlers, pending, steps) == BodyRound(handlers, pending[4..], len, steps);
      outcome := ServeBody(conn, len);
      lenOwner.Dispose();
    }

    /** The body half of an iteration: rent the body buffer, read it, dispatch, release the buffer. */
    method ServeBody(conn: Stream, len: nat) returns (outcome: Outcome)
      requires pool.Valid() && len <= MaxArrayLength
      modifies conn, pool, pool.Repr, events`bytesReceived, events`bytesSent
      ensures var r := BodyRound(handlers, old(conn.Pending()), len, old(conn.steps));
              outcome == r.outcome && conn.sent == old(conn.sent) + r.written && conn.steps == r.steps
              && events.bytesReceived == old(events.bytesReceived) + r.received
              && events.bytesSent == old(events.bytesSent) + r.counted
              && (outcome.Next? ==> conn.Pending() == old(conn.Pending())[len..])
      ensures pool.Valid() && pool.lent == old(pool.lent) && fresh(pool.Repr - old(pool.Repr))
    {
      ghost var pending, steps := conn.Pending(), conn.steps;
      var owner, ok := RentAndRead(pool, conn, len);
      if !ok {
        owner.Dispose();
        return Ended(PeerClosed);
      }
      if len == 0 {
        // reading the opcode byte of an empty body throws, caught by the outer catch
        owner.Dispose();
        return Ended(EmptyFrame);
      }
      var opcode := owner.buffer[0];
      var payload := owner.buffer[1..len];
      assert opcode == pending[0] && payload == pending[1..len];
      var sentOk := DispatchFrame(conn, opcode, payload, len);
      owner.Dispose();
      outcome := if sentOk then Next(4 + len) else Ended(SentinelFailed);
    }

    /** Counting the frame in, running its handler and sending the answer. */
    method DispatchFrame(conn: Stream, opcode: byte, payload: seq<byte>, len: nat) returns (sentOk: bool)
      modifies conn, events`bytesReceived, events`bytesSent
      ensures var r := Dispatch(handlers, opcode, payload, len, old(conn.steps));
              sentOk == r.outcome.Next? && conn.sent == old(conn.sent) + r.written && conn.steps == r.steps
              && events.bytesReceived == old(events.bytesReceived) + r.received
              && events.bytesSent == old(events.bytesSent) + r.counted
      ensures conn.incoming == old(conn.incoming)
    {
      events.BytesReceived(len);
      var response := Response(handlers, opcode, payload);
      if response.Some? {
        events.BytesSent(|response.value|);
      }
      sentOk := SendAnswer(conn, opcode, payload, len, response);
    }

    /** Sending the response, or the sentinel when there is none or the response's send fails. */
    method SendAnswer(conn: Stream, opcode: byte, payload: seq<byte>, len: nat, response: Option<seq<byte>>)
      returns (sentOk: bool)
      requires response == Response(handlers, opcode, payload)
      modifies conn
      ensures var r := Dispatch(handlers, opcode, payload, len, old(conn.steps));
              sentOk == r.outcome.Next? && conn.sent == old(conn.sent) + r.written && conn.steps == r.steps
      ensures conn.incoming == old(conn.incoming)
    {
      if response.Some? {
        sentOk := SendAll(conn, response.value);
        if !sentOk {
          sentOk := SendAll(conn, Sentinel(opcode));
        }
      } else {
        sentOk := SendAll(conn, Sentinel(opcode));
      }
    }

    /** The dispatch loop for one connection: rounds until one ends it. */
    method ProcessClient(conn: Stream) returns (exit: Exit)
      requires pool.Valid()
      modifies conn, pool, pool.Repr, events`bytesReceived, events`bytesSent
      ensures var s := UnixServe(handlers, old(conn.Pending()), old(conn.steps));
              exit == s.exit && conn.sent == old(conn.sent) + s.written
              && events.bytesReceived == old(events.bytesReceived) + s.received
              && events.bytesSent == old(events.bytesSent) + s.counted
      ensures pool.Valid() && pool.lent == old(pool.lent) && fresh(pool.Repr - old(pool.Repr))
    {
      while true
        invariant pool.Valid() && pool.lent == old(pool.lent) && fresh(pool.Repr - old(pool.Repr))
        invariant var s0 := UnixServe(handlers, old(conn.Pending()), old(conn.steps));
                  var s := UnixServe(handlers, conn.Pending(), conn.steps);
                  && old(conn.sent) + s0.written == conn.sent + s.written
                  && old(events.bytesReceived) + s0.received == events.bytesReceived + s.received
                  && old(events.bytesSent) + s0.counted == events.bytesSent + s.counted
                  && s0.exit == s.exit
        decreases |conn.Pending()|
      {
        ghost var pending, steps, sent := conn.Pending(), conn.steps, conn.sent;
        var outcome, r := ServeFrame(conn);
        if outcome.Ended? {
          UnixServeEnded(handlers, pending, steps);
          return outcome.exit;
        }
        UnixServeNext(handlers, pending, steps);
        AppendAssociates(sent, r.written, UnixServe(handlers, conn.Pending(), conn.steps).written);
      }
    }

    /** Counts the connection in, serves it, closes it and counts it out. */
    method ProcessAndCleanupClient(conn: Stream) returns (exit: Exit)
      requires pool.Valid()
      modifies this, conn, pool, pool.Repr, events`connections, events`bytesReceived, events`bytesSent
      ensures activeConnections == old(activeConnections)
      ensures events.connections == old(activeConnections)
      ensures handlers == old(handlers) && !conn.connected
      ensures var s := UnixServe(handlers, old(conn.Pending()), old(conn.steps));
              exit == s.exit && conn.sent == old(conn.sent) + s.written
              && events.bytesReceived == old(events.bytesReceived) + s.received
              && events.bytesSent == old(events.bytesSent) + s.counted
      ensures pool.Valid() && pool.lent == old(pool.lent)
    {
      activeConnections := activeConnections + 1;
      events.ConnectionChanged(activeConnections);
      exit := ProcessClient(conn);
      conn.Close();
      activeConnections := activeConnections - 1;
      events.ConnectionChanged(activeConnections);
    }
  }
  /**
   * A complete frame whose opcode has a handler that returns: the response frame is sent, and
   * when the peer takes all of it the loop goes on with the bytes after the frame.
   */
  lemma {:induction false} RegisteredFrameIsAnswered(handlers: map<byte, Handler>, opcode: byte,
                                                     payload: seq<byte>, rest: seq<byte>, steps: seq<SendStep>)
    requires Encodable(payload) && opcode in handlers && handlers[opcode](payload).Returns?
    requires Encodable(handlers[opcode](payload).bytes)
    requires Transmit(steps, EncodeMessage(opcode, handlers[opcode](payload).bytes)).ok
    ensures var response := EncodeMessage(opcode, handlers[opcode](payload).bytes);
            UnixRound(handlers, EncodeMessage(opcode, payload) + rest, steps)
            == Round(response, 1 + |payload|, |response|, Transmit(steps, response).rest, Next(5 + |payload|))
  {
    EncodedFields(opcode, payload, rest);
  }

  /**
   * A complete frame with no usable response (opcode unregistered, handler throws, reply too
   * large to frame): the sentinel is sent, and the loop goes on exactly when that send succeeds.
   */
  lemma {:induction false} UnansweredFrameGetsSentinel(handlers: map<byte, Handler>, opcode: byte,
                                                       payload: seq<byte>, rest: seq<byte>, steps: seq<SendStep>)
    requires Encodable(payload) && Response(handlers, opcode, payload).None?
    ensures var e := Transmit(steps, [0, 0, 0, 1, opcode]);
            UnixRound(handlers, EncodeMessage(opcode, payload) + rest, steps)
            == Round([0, 0, 0, 1, opcode][..e.accepted], 1 + |payload|, 0, e.rest,
                     if e.ok then Next(5 + |payload|) else Ended(SentinelFailed))
  {
    EncodedFields(opcode, payload, rest);
  }

  /**
   * When sending the response throws part-way, the sentinel follows the bytes already taken;
   * the response still counts as sent, and only a failing sentinel ends the connection.
   */
  lemma {:induction false} FailedResponseFallsBackToSentinel(handlers: map<byte, Handler>, opcode: byte,
                                                             payload: seq<byte>, rest: seq<byte>, steps: seq<SendStep>)
    requires Encodable(payload) && Response(handlers, opcode, payload).Some?
    requires !Transmit(steps, Response(handlers, opcode, payload).value).ok
    ensures var response := Response(handlers, opcode, payload).value;
            var t := Transmit(steps, response);
            var e := Transmit(t.rest, [0, 0, 0, 1, opcode]);
            UnixRound(handlers, EncodeMessage(opcode, payload) + rest, steps)
            == Round(response[..t.accepted] + [0, 0, 0, 1, opcode][..e.accepted], 1 + |payload|, |response|,
                     e.rest, if e.ok then Next(5 + |payload|) else Ended(SentinelFailed))
  {
    EncodedFields(opcode, payload, rest);
  }

  /** A peer that closes inside a frame's header or body ends the loop, and nothing is sent for it. */
  lemma {:induction false} TruncatedFrameEndsQuietly(handlers: map<byte, Handler>, opcode: byte,
                                                     payload: seq<byte>, k: nat, steps: seq<SendStep>)
    requires Encodable(payload) && k < 5 + |payload|
    ensures UnixRound(handlers, EncodeMessage(opcode, payload)[..k], steps)
            == Round([], 0, 0, steps, Ended(PeerClosed))
  {
    var e := EncodeMessage(opcode, payload);
    if k >= 4 {
      assert e[..k][..4] == e[..4];
    }
  }

  /** A zero length header ends the connection without an answer (the opcode read throws). */
  lemma {:induction false} EmptyFrameEndsConnection(handlers: map<byte, Handler>, rest: seq<byte>,
                                                    steps: seq<SendStep>)
    ensures UnixRound(handlers, [0, 0, 0, 0] + rest, steps) == Round([], 0, 0, steps, Ended(EmptyFrame))
  {
    var input := [0, 0, 0, 0] + rest;
    assert input[..4] == [0, 0, 0, 0];
  }

  /** A header with the sign bit set cannot be rented, and ends the connection without an answer. */
  lemma {:induction false} NegativeLengthEndsConnection(handlers: map<byte, Handler>, pending: seq<byte>,
                                                        steps: seq<SendStep>)
    requires |pending| >= 4 && pending[0] >= 0x80
    ensures UnixRound(handlers, pending, steps) == Round([], 0, 0, steps, Ended(RentFailed))
  {
    SignBitIsNegative(pending[..4]);
  }

  /** A round that goes on has read exactly the frame the codec decodes from the same bytes. */
  lemma {:induction false} RoundReadsDecodedFrame(handlers: map<byte, Handler>, pending: seq<byte>,
                                                  steps: seq<SendStep>)
    requires UnixRound(handlers, pending, steps).outcome.Next?
    ensures var r := UnixRound(handlers, pending, steps);
            TryDecode(pending) == Decoded(Frame(pending[4], pending[5..r.outcome.consumed]))
            && r.received == r.outcome.consumed - 4
  {
  }

  /** With a peer that takes every frame in one call, a request's round sends exactly its answer. */
  lemma {:induction false} GenerousRound(handlers: map<byte, Handler>, f: Frame, rest: seq<byte>, n: nat)
    requires Encodable(f.payload) && n >= 1
    ensures var r := UnixRound(handlers, EncodeMessage(f.opcode, f.payload) + rest, GenerousPeer(n));
            r.written == Answer(handlers, f.opcode, f.payload) && r.steps == GenerousPeer(n - 1)
            && r.outcome == Next(5 + |f.payload|)
  {
    EncodedFields(f.opcode, f.payload, rest);
    var answer := Answer(handlers, f.opcode, f.payload);
    GenerousPeerTakesFrame(n, answer);
    assert answer[..|answer|] == answer;
  }

  /**
   * A client that sends well-formed requests back to back to a peer that takes every frame in
   * one call gets the answer to each request in order, and the loop ends when it closes.
   */
  lemma {:induction false} ServesRequestsInOrder(handlers: map<byte, Handler>, frames: seq<Frame>)
    requires AllEncodable(frames)
    ensures UnixServe(handlers, Requests(frames), GenerousPeer(|frames|)).written == Answers(handlers, frames)
    ensures UnixServe(handlers, Requests(frames), GenerousPeer(|frames|)).exit == PeerClosed
  {
    if frames != [] {
      var f := frames[0];
      var rest := Requests(frames[1..]);
      assert AllEncodable(frames[1..]) by {
        forall i | 0 <= i < |frames[1..]| ensures Encodable(frames[1..][i].payload) {
          assert frames[1..][i] == frames[i + 1];
        }
      }
      assert Requests(frames) == EncodeMessage(f.opcode, f.payload) + rest;
      GenerousRound(handlers, f, rest, |frames|);
      EncodedFields(f.opcode, f.payload, rest);
      UnixServeNext(handlers, Requests(frames), GenerousPeer(|frames|));
      ServesRequestsInOrder(handlers, frames[1..]);
    }
  }
}
