/**
 * The named-pipe server's per-connection dispatch loop. It runs while the pipe reports itself
 * connected; each round reads a header and a body into pooled buffers, dispatches, and writes
 * and flushes the framed reply (or the error sentinel). Buffers are released by explicit calls,
 * which the paths that leave the loop by `break` or by a throw never reach.
 */
module NamedPipeServer {
  import opened Bytes
  import opened Wrappers
  import opened UmbralProtocol
  import opened Channel
  import opened Transport
  import opened Handlers
  import opened Diagnostics

  datatype Exit =
    | Disconnected     // the pipe reported itself disconnected at the top of the loop
    | PeerClosed       // a read of 0 bytes inside the header or the body
    | RentFailed       // the declared length is negative or larger than any array
    | EmptyFrame       // a length of 0: the body has no opcode byte
    | SentinelFailed   // writing the error sentinel threw: `break`

  datatype Outcome = Next(consumed: nat) | Ended(exit: Exit)

  /**
   * One round of the loop: bytes written, counter increments, the send script left, whether
   * the loop goes on, and how many pooled buffers the round left rented.
   */
  datatype Round = Round(written: seq<byte>, received: nat, counted: nat, steps: seq<SendStep>,
                         outcome: Outcome, leaked: nat)

  function PipeRound(handlers: map<byte, Handler>, pending: seq<byte>, steps: seq<SendStep>): (r: Round)
    ensures r.outcome.Next? ==> 5 <= r.outcome.consumed <= |pending| && r.leaked == 0
  {
    if |pending| < 4 then Round([], 0, 0, steps, Ended(PeerClosed), 0)
    else
      var len := DeclaredLength(pending);
      // renting the body throws past the header buffer's release
      if len < 0 || len > MaxArrayLength then Round([], 0, 0, steps, Ended(RentFailed), 1)
      else BodyRound(handlers, pending[4..], len, steps)
  }

  function BodyRound(handlers: map<byte, Handler>, pending: seq<byte>, len: nat, steps: seq<SendStep>): (r: Round)
    ensures r.outcome.Next? ==> r.outcome == Next(4 + len) && 1 <= len <= |pending| && r.leaked == 0
    ensures r.leaked == 0 || r.leaked == 2
  {
    if |pending| < len then Round([], 0, 0, steps, Ended(PeerClosed), 0)
    // reading the opcode of an empty body throws past both releases
    else if len == 0 then Round([], 0, 0, steps, Ended(EmptyFrame), 2)
    else Dispatch(handlers, pending[0], pending[1..len], len, steps)
  }

  /**
   * Answering a complete frame. A response write that fails leaves the pipe broken, so the
   * sentinel write after it fails too and the loop breaks.
   */
  function Dispatch(handlers: map<byte, Handler>, opcode: byte, payload: seq<byte>, len: nat,
                    steps: seq<SendStep>): (r: Round)
    ensures r.received == len
    ensures r.leaked == if r.outcome.Next? then 0 else 2
    ensures r.outcome == Next(4 + len) || r.outcome == Ended(SentinelFailed)
  {
    match Response(handlers, opcode, payload)
    case Some(response) =>
      var t := Transmit(steps, response);
      if t.ok then Round(response, len, |response|, t.rest, Next(4 + len), 0)
      else Round(response[..t.accepted], len, |response|, t.rest, Ended(SentinelFailed), 2)
    case None =>
      var e := Transmit(steps, Sentinel(opcode));
      if e.ok then Round(Sentinel(opcode), len, 0, e.rest, Next(4 + len), 0)
      else Round(Sentinel(opcode)[..e.accepted], len, 0, e.rest, Ended(SentinelFailed), 2)
  }

  datatype Served = Served(written: seq<byte>, received: nat, counted: nat, exit: Exit, leaked: nat)

  /** Everything one connection produces, from whether the pipe is connected when the loop starts. */
  function PipeServe(handlers: map<byte, Handler>, pending: seq<byte>, steps: seq<SendStep>,
                     connected: bool): Served
    decreases |pending|
  {
    if !connected then Served([], 0, 0, Disconnected, 0)
    else
      var r := PipeRound(handlers, pending, steps);
      match r.outcome
      case Ended(exit) => Served(r.written, r.received, r.counted, exit, r.leaked)
      case Next(consumed) =>
        var rest := PipeServe(handlers, pending[consumed..], r.steps, true);
        Served(r.written + rest.written, r.received + rest.received, r.counted + rest.counted,
               rest.exit, r.leaked + rest.leaked)
  }

  lemma PipeServeNext(handlers: map<byte, Handler>, pending: seq<byte>, steps: seq<SendStep>)
    requires PipeRound(handlers, pending, steps).outcome.Next?
    ensures var r := PipeRound(handlers, pending, steps);
            var rest := PipeServe(handlers, pending[r.outcome.consumed..], r.steps, true);
            PipeServe(handlers, pending, steps, true) ==
              Served(r.written + rest.written, r.received + rest.received, r.counted + rest.counted,
                     rest.exit, r.leaked + rest.leaked)
  {
  }

  lemma PipeServeEnded(handlers: map<byte, Handler>, pending: seq<byte>, steps: seq<SendStep>)
    requires PipeRound(handlers, pending, steps).outcome.Ended?
    ensures var r := PipeRound(handlers, pending, steps);
            PipeServe(handlers, pending, steps, true)
            == Served(r.written, r.received, r.counted, r.outcome.exit, r.leaked)
  {
  }

  class NamedPipeUmbralSocketServer {
    var handlers: map<byte, Handler>
    var activeConnections: int
    const pool: ArrayPool
    const events: UmbralSocketEventSource

    constructor (pool: ArrayPool, events: UmbralSocketEventSource)
      ensures this.pool == pool && this.events == events
      ensures handlers == map[] && activeConnections == 0
    {
      this.pool, this.events := pool, events;
      handlers, activeConnections := map[], 0;
    }

    /** Maps `opcode` to `handler`, replacing any earlier one. */
    method RegisterHandler(opcode: byte, handler: Handler)
      modifies this
      ensures handlers == old(handlers)[opcode := handler]
      ensures activeConnections == old(activeConnections)
    {
      handlers := handlers[opcode := handler];
    }

    /** One iteration of the loop on a connected pipe. */
    method ServeFrame(conn: Stream) returns (outcome: Outcome, ghost r: Round)
      requires pool.Valid() && conn.connected
      modifies conn, pool, pool.Repr, events`bytesReceived, events`bytesSent
      ensures r == PipeRound(handlers, old(conn.Pending()), old(conn.steps))
      ensures outcome == r.outcome && conn.sent == old(conn.sent) + r.written && conn.steps == r.steps
              && events.bytesReceived == old(events.bytesReceived) + r.received
              && events.bytesSent == old(events.bytesSent) + r.counted
      ensures outcome.Next? ==> conn.Pending() == old(conn.Pending())[outcome.consumed..]
                                && conn.connected && conn.flushedTo == |conn.sent|
      ensures pool.Valid() && fresh(pool.Repr - old(pool.Repr))
      ensures pool.outstanding == old(pool.outstanding) + r.leaked
    {
      ghost var pending, steps := conn.Pending(), conn.steps;
      r := PipeRound(handlers, pending, steps);
      var lenOwner, ok := RentAndRead(pool, conn, 4);
      if !ok {
        lenOwner.Dispose();
        return Ended(PeerClosed), r;
      }
      var len := Int32(U32BE(lenOwner.buffer[..4]));
      if len < 0 || len > MaxArrayLength {
        // the pool cannot rent such a length: the throw reaches the outer catch
        return Ended(RentFailed), r;
      }
      assert r == BodyRound(handlers, pending[4..], len, steps);
      outcome := ServeBody(conn, len, lenOwner);
    }

    /**
     * The body half of an iteration, given the header's buffer owner: both buffers are
     * released when the body cannot be read and when the round goes on, and on no other path.
     */
    method ServeBody(conn: Stream, len: nat, lenOwner: PooledBufferOwner) returns (outcome: Outcome)
      requires pool.Valid() && len <= MaxArrayLength && conn.connected
      requires lenOwner.pool == pool && lenOwner.Valid() && !lenOwner.disposed
      modifies conn, pool, pool.Repr, events`bytesReceived, events`bytesSent, lenOwner
      ensures var r := BodyRound(handlers, old(conn.Pending()), len, old(conn.steps));
              outcome == r.outcome && conn.sent == old(conn.sent) + r.written && conn.steps == r.steps
              && events.bytesReceived == old(events.bytesReceived) + r.received
              && events.bytesSent == old(events.bytesSent) + r.counted
              && pool.outstanding + 1 == old(pool.outstanding) + r.leaked
      ensures outcome.Next? ==> conn.Pending() == old(conn.Pending())[len..]
                                && conn.connected && conn.flushedTo == |conn.sent|
      ensures pool.Valid() && fresh(pool.Repr - old(pool.Repr))
    {
      ghost var pending := conn.Pending();
      var owner, ok := RentAndRead(pool, conn, len);
      if !ok {
        DisposeBoth(lenOwner, owner);
        return Ended(PeerClosed);
      }
      if len == 0 {
        // reading the opcode byte of an empty body throws, caught by the outer catch
        return Ended(EmptyFrame);
      }
      var opcode := owner.buffer[0];
      var payload := owner.buffer[1..len];
      assert opcode == pending[0] && payload == pending[1..len];
      outcome := FinishRound(conn, opcode, payload, len, lenOwner, owner);
    }

    /** Dispatching a read frame, then the two releases if the answer went out. */
    method FinishRound(conn: Stream, opcode: byte, payload: seq<byte>, len: nat,
                       lenOwner: PooledBufferOwner, owner: PooledBufferOwner) returns (outcome: Outcome)
      requires conn.connected && pool.Valid() && lenOwner.pool == pool && owner.pool == pool
      requires lenOwner.Valid() && owner.Valid() && !lenOwner.disposed && !owner.disposed
      requires lenOwner.buffer != owner.buffer
      modifies conn, events`bytesReceived, events`bytesSent, pool, lenOwner, owner
      ensures var r := Dispatch(handlers, opcode, payload, len, old(conn.steps));
              outcome == r.outcome && conn.sent == old(conn.sent) + r.written && conn.steps == r.steps
              && events.bytesReceived == old(events.bytesReceived) + r.received
              && events.bytesSent == old(events.bytesSent) + r.counted
      ensures outcome.Next? ==> conn.connected && conn.flushedTo == |conn.sent|
                                && pool.outstanding == old(pool.outstanding) - 2
      ensures outcome.Ended? ==> pool.outstanding == old(pool.outstanding)
      ensures conn.incoming == old(conn.incoming)
      ensures pool.Valid() && pool.Repr == old(pool.Repr)
    {
      var sentOk := DispatchFrame(conn, opcode, payload, len);
      if sentOk {
        DisposeBoth(lenOwner, owner);
        outcome := Next(4 + len);
      } else {
        outcome := Ended(SentinelFailed);
      }
    }

    /** Counting the frame in, running its handler, writing and flushing the answer. */
    method DispatchFrame(conn: Stream, opcode: byte, payload: seq<byte>, len: nat) returns (sentOk: bool)
      requires conn.connected
      modifies conn, events`bytesReceived, events`bytesSent
      ensures var r := Dispatch(handlers, opcode, payload, len, old(conn.steps));
              sentOk == r.outcome.Next? && conn.sent == old(conn.sent) + r.written && conn.steps == r.steps
              && events.bytesReceived == old(events.bytesReceived) + r.received
              && events.bytesSent == old(events.bytesSent) + r.counted
      ensures sentOk ==> conn.connected == old(conn.connected) && conn.flushedTo == |conn.sent|
      ensures conn.incoming == old(conn.incoming)
    {
      events.BytesReceived(len);
      var response := Response(handlers, opcode, payload);
      if response.Some? {
        events.BytesSent(|response.value|);
        sentOk := conn.Write(response.value);
        if sentOk {
          conn.Flush();
          return;
        }
      }
      // the error path: the sentinel, written and flushed
      sentOk := conn.Write(Sentinel(opcode));
      if sentOk {
        conn.Flush();
      }
    }

    /** The dispatch loop for one connection: rounds while the pipe is connected. */
    method ProcessClient(conn: Stream) returns (exit: Exit)
      requires pool.Valid()
      modifies conn, pool, pool.Repr, events`bytesReceived, events`bytesSent
      ensures var s := PipeServe(handlers, old(conn.Pending()), old(conn.steps), old(conn.connected));
              exit == s.exit && conn.sent == old(conn.sent) + s.written
              && events.bytesReceived == old(events.bytesReceived) + s.received
              && events.bytesSent == old(events.bytesSent) + s.counted
              && pool.outstanding == old(pool.outstanding) + s.leaked
      ensures pool.Valid() && fresh(pool.Repr - old(pool.Repr))
    {
      while conn.connected
        invariant pool.Valid() && fresh(pool.Repr - old(pool.Repr)) && pool.outstanding == old(pool.outstanding)
        invariant var s0 := PipeServe(handlers, old(conn.Pending()), old(conn.steps), old(conn.connected));
                  var s := PipeServe(handlers, conn.Pending(), conn.steps, conn.connected);
                  && old(conn.sent) + s0.written == conn.sent + s.written
                  && old(events.bytesReceived) + s0.received == events.bytesReceived + s.received
                  && old(events.bytesSent) + s0.counted == events.bytesSent + s.counted
                  && s0.exit == s.exit && s0.leaked == s.leaked
        decreases |conn.Pending()|
      {
        ghost var pending, steps, sent := conn.Pending(), conn.steps, conn.sent;
        var outcome, r := ServeFrame(conn);
        if outcome.Ended? {
          PipeServeEnded(handlers, pending, steps);
          return outcome.exit;
        }
        PipeServeNext(handlers, pending, steps);
        AppendAssociates(sent, r.written, PipeServe(handlers, conn.Pending(), conn.steps, true).written);
      }
      assert conn.sent + [] == conn.sent;
      return Disconnected;
    }

    /** Counts the connection in, serves it, disposes the pipe and counts it out. */
    method ProcessAndCleanupClient(conn: Stream) returns (exit: Exit)
      requires pool.Valid()
      modifies this, conn, pool, pool.Repr, events`connections, events`bytesReceived, events`bytesSent
      ensures activeConnections == old(activeConnections)
      ensures events.connections == old(activeConnections)
      ensures handlers == old(handlers) && !conn.connected
      ensures var s := PipeServe(handlers, old(conn.Pending()), old(conn.steps), old(conn.connected));
              exit == s.exit && conn.sent == old(conn.sent) + s.written
              && events.bytesReceived == old(events.bytesReceived) + s.received
              && events.bytesSent == old(events.bytesSent) + s.counted
              && pool.outstanding == old(pool.outstanding) + s.leaked
      ensures pool.Valid()
    {
      activeConnections := activeConnections + 1;
      events.ConnectionChanged(activeConnections);
      exit := ProcessClient(conn);
      conn.Close();
      activeConnections := activeConnections - 1;
      events.ConnectionChanged(activeConnections);
    }
  }

  /**
   * A complete frame whose opcode has a handler that returns: the response frame is written
   * and flushed, and when the write succeeds the loop goes on with both buffers released.
   */
  lemma {:induction false} RegisteredFrameIsAnswered(handlers: map<byte, Handler>, opcode: byte,
                                                     payload: seq<byte>, rest: seq<byte>, steps: seq<SendStep>)
    requires Encodable(payload) && opcode in handlers && handlers[opcode](payload).Returns?
    requires Encodable(handlers[opcode](payload).bytes)
    requires Transmit(steps, EncodeMessage(opcode, handlers[opcode](payload).bytes)).ok
    ensures var response := EncodeMessage(opcode, handlers[opcode](payload).bytes);
            PipeRound(handlers, EncodeMessage(opcode, payload) + rest, steps)
            == Round(response, 1 + |payload|, |response|, Transmit(steps, response).rest, Next(5 + |payload|), 0)
  {
    EncodedFields(opcode, payload, rest);
  }

  /**
   * A complete frame with no usable response: the sentinel is written; the loop goes on when
   * that write succeeds, and otherwise breaks with both buffers still rented.
   */
  lemma {:induction false} UnansweredFrameGetsSentinel(handlers: map<byte, Handler>, opcode: byte,
                                                       payload: seq<byte>, rest: seq<byte>, steps: seq<SendStep>)
    requires Encodable(payload) && Response(handlers, opcode, payload).None?
    ensures var e := Transmit(steps, [0, 0, 0, 1, opcode]);
            PipeRound(handlers, EncodeMessage(opcode, payload) + rest, steps)
            == Round([0, 0, 0, 1, opcode][..e.accepted], 1 + |payload|, 0, e.rest,
                     if e.ok then Next(5 + |payload|) else Ended(SentinelFailed), if e.ok then 0 else 2)
  {
    EncodedFields(opcode, payload, rest);
  }

  /**
   * A response write that fails breaks the pipe: the sentinel write after it fails at once, so
   * nothing follows the part of the response the peer took, and both buffers stay rented.
   */
  lemma {:induction false} FailedWriteBreaksLoop(handlers: map<byte, Handler>, opcode: byte,
                                                 payload: seq<byte>, rest: seq<byte>, steps: seq<SendStep>)
    requires Encodable(payload) && Response(handlers, opcode, payload).Some?
    requires !Transmit(steps, Response(handlers, opcode, payload).value).ok
    ensures var response := Response(handlers, opcode, payload).value;
            var t := Transmit(steps, response);
            PipeRound(handlers, EncodeMessage(opcode, payload) + rest, steps)
            == Round(response[..t.accepted], 1 + |payload|, |response|, t.rest, Ended(SentinelFailed), 2)
  {
    EncodedFields(opcode, payload, rest);
  }

  /** A pipe closed inside a frame's header or body ends the loop with nothing written and nothing rented. */
  lemma {:induction false} TruncatedFrameEndsQuietly(handlers: map<byte, Handler>, opcode: byte,
                                                     payload: seq<byte>, k: nat, steps: seq<SendStep>)
    requires Encodable(payload) && k < 5 + |payload|
    ensures PipeRound(handlers, EncodeMessage(opcode, payload)[..k], steps)
            == Round([], 0, 0, steps, Ended(PeerClosed), 0)
  {
    var e := EncodeMessage(opcode, payload);
    if k >= 4 {
      assert e[..k][..4] == e[..4];
    }
  }

  /** A zero length header ends the loop past both releases: two buffers stay rented. */
  lemma {:induction false} EmptyFrameLeaksBothBuffers(handlers: map<byte, Handler>, rest: seq<byte>,
                                                      steps: seq<SendStep>)
    ensures PipeRound(handlers, [0, 0, 0, 0] + rest, steps) == Round([], 0, 0, steps, Ended(EmptyFrame), 2)
  {
    var input := [0, 0, 0, 0] + rest;
    assert input[..4] == [0, 0, 0, 0];
  }

  /** A header with the sign bit set cannot be rented: the loop ends with the header's buffer still rented. */
  lemma {:induction false} NegativeLengthLeaksHeader(handlers: map<byte, Handler>, pending: seq<byte>,
                                                     steps: seq<SendStep>)
    requires |pending| >= 4 && pending[0] >= 0x80
    ensures PipeRound(handlers, pending, steps) == Round([], 0, 0, steps, Ended(RentFailed), 1)
  {
    SignBitIsNegative(pending[..4]);
  }

  /** With a peer that takes every frame in one write, a request's round writes exactly its answer. */
  lemma {:induction false} GenerousRound(handlers: map<byte, Handler>, f: Frame, rest: seq<byte>, n: nat)
    requires Encodable(f.payload) && n >= 1
    ensures var r := PipeRound(handlers, EncodeMessage(f.opcode, f.payload) + rest, GenerousPeer(n));
            r.written == Answer(handlers, f.opcode, f.payload) && r.steps == GenerousPeer(n - 1)
            && r.outcome == Next(5 + |f.payload|) && r.leaked == 0
  {
    EncodedFields(f.opcode, f.payload, rest);
    var answer := Answer(handlers, f.opcode, f.payload);
    GenerousPeerTakesFrame(n, answer);
    assert answer[..|answer|] == answer;
  }

  /**
   * Requests sent back to back to a peer that takes every frame in one write are answered in
   * order; the loop ends when the client closes, and no buffer is left rented.
   */
  lemma {:induction false} ServesRequestsInOrder(handlers: map<byte, Handler>, frames: seq<Frame>)
    requires AllEncodable(frames)
    ensures var s := PipeServe(handlers, Requests(frames), GenerousPeer(|frames|), true);
            s.written == Answers(handlers, frames) && s.exit == PeerClosed && s.leaked == 0
  {
    if frames != [] {
      var f := frames[0];
      var rest := Requests(frames[1..]);
      assert AllEncodable(frames[1..]) by {
        forall i | 0 <= i < |frames[1..]| ensures Encodable(frames[1..][i].payload) {
          assert frames[1..][i] == frames[i + 1];
        }
      }
      assert Requests(frames) == EncodeMessage(f.opcode, f.payload) + rest;
      GenerousRound(handlers, f, rest, |frames|);
      EncodedFields(f.opcode, f.payload, rest);
      PipeServeNext(handlers, Requests(frames), GenerousPeer(|frames|));
      ServesRequestsInOrder(handlers, frames[1..]);
    }
  }
}
