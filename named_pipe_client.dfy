/**
 * The named-pipe client. It keeps one pipe connection in a slot and reconnects only when the
 * pipe in the slot is gone. A request is written and flushed; the answer's length and body are
 * read into pooled buffers, which `finally` releases, and every request that got past the
 * connection step records one latency sample. A second overload writes a frame header and
 * then the payload's segments one write at a time, and reads no answer.
 */
module NamedPipeClient {
  import opened Bytes
  import opened Wrappers
  import opened UmbralProtocol
  import opened Channel
  import opened Transport
  import opened Diagnostics
  import opened SequenceExtensions
  import opened Handlers
  import opened NamedPipeServer

  datatype ClientError =
    | ObjectDisposed                        // the connection semaphore was disposed by DisposeAsync
    | MessageTooLarge                       // the request frame is larger than any array
    | WriteFailed                           // a pipe write threw
    | ClosedReadingLength                   // the pipe closed inside the answer's length
    | ServerReturnedError                   // the answer's length is 0
    | NegativeLength                        // renting a negative length throws
    | LengthTooLarge                        // renting beyond the largest array runs out of memory
    | ClosedReadingPayload                  // the pipe closed inside the answer's body
    | OpcodeMismatch(expected: byte, got: byte)

  /** What the client makes of the bytes the server sends back to a request for `opcode`. */
  function ParseResponse(pending: seq<byte>, opcode: byte): (r: Result<seq<byte>, ClientError>)
    ensures r.Success? <==> TryDecode(pending).Decoded? && TryDecode(pending).frame.opcode == opcode
                            && 1 + |TryDecode(pending).frame.payload| <= MaxArrayLength
    ensures r.Success? ==> r.value == TryDecode(pending).frame.payload
  {
    if |pending| < 4 then Failure(ClosedReadingLength)
    else
      var len := DeclaredLength(pending);
      if len == 0 then Failure(ServerReturnedError)
      else if len < 0 then Failure(NegativeLength)
      else if len > MaxArrayLength then Failure(LengthTooLarge)
      else if |pending| - 4 < len then Failure(ClosedReadingPayload)
      else if pending[4] != opcode then Failure(OpcodeMismatch(opcode, pending[4]))
      else Success(pending[5..4 + len])
  }

  /**
   * One request on a connected pipe whose peer sends `pending` and takes bytes as `steps` says:
   * the frame must fit in an array, its write must succeed, and then the answer decides.
   */
  function Exchange(pending: seq<byte>, steps: seq<SendStep>, opcode: byte, payload: seq<byte>)
    : Result<seq<byte>, ClientError>
  {
    if !Encodable(payload) then Failure(MessageTooLarge)
    else if !Transmit(steps, EncodeMessage(opcode, payload)).ok then Failure(WriteFailed)
    else ParseResponse(pending, opcode)
  }

  /**
   * How many bytes of `pending` the client reads for one answer: 4 when it stops after the
   * length, 4 + len when it read the body too, and None when a read hit the end of the stream.
   */
  function ResponseExtent(pending: seq<byte>): (k: Option<nat>)
    ensures k.Some? ==> 4 <= k.value <= |pending|
  {
    if |pending| < 4 then None
    else
      var len := DeclaredLength(pending);
      if len <= 0 || len > MaxArrayLength then Some(4)
      else if |pending| - 4 < len then None
      else Some(4 + len)
  }

  /** The pipe as the next request finds it: the bytes still to be read, the peer's script, `IsConnected`. */
  datatype PipeState = PipeState(pending: seq<byte>, steps: seq<SendStep>, connected: bool)

  /** What reading one answer leaves: the rest of the input, or an exhausted, disconnected pipe. */
  function AfterResponse(pending: seq<byte>, steps: seq<SendStep>, connected: bool): (s: PipeState)
    ensures |s.pending| <= |pending| && s.pending == pending[|pending| - |s.pending|..]
    ensures s.steps == steps && (s.connected ==> connected)
  {
    match ResponseExtent(pending)
    case None => PipeState([], steps, false)
    case Some(k) => PipeState(pending[k..], steps, connected)
  }

  /** What one request leaves of a connected pipe, alongside the result `Exchange` gives. */
  function AfterExchange(pending: seq<byte>, steps: seq<SendStep>, opcode: byte, payload: seq<byte>): (s: PipeState)
    ensures |s.pending| <= |pending| && s.pending == pending[|pending| - |s.pending|..]
    ensures Exchange(pending, steps, opcode, payload).Success? ==>
              s.connected && s.pending == pending[5 + |Exchange(pending, steps, opcode, payload).value|..]
  {
    if !Encodable(payload) then PipeState(pending, steps, true)
    else
      var t := Transmit(steps, EncodeMessage(opcode, payload));
      if !t.ok then PipeState(pending, t.rest, false)
      else AfterResponse(pending, t.rest, true)
  }

  /**
   * Answers queued back to back: a request whose answer is first leaves the pipe connected,
   * with the next answer first in line.
   */
  lemma {:induction false} AnswerLeavesTheRest(opcode: byte, payload: seq<byte>, answer: seq<byte>,
                                               next: seq<byte>, steps: seq<SendStep>)
    requires Encodable(payload) && Encodable(answer)
    requires Transmit(steps, EncodeMessage(opcode, payload)).ok
    ensures var pending := EncodeMessage(opcode, answer) + next;
            Exchange(pending, steps, opcode, payload) == Success(answer)
            && AfterExchange(pending, steps, opcode, payload)
               == PipeState(next, Transmit(steps, EncodeMessage(opcode, payload)).rest, true)
  {
    var pending := EncodeMessage(opcode, answer) + next;
    ResponseRoundTrip(opcode, answer, next);
    EncodedFields(opcode, answer, next);
  }

  /**
   * The length field of the chunked send: `1 + (int)payload.Length` converted to `uint`. Both
   * casts keep the low 32 bits, so the field is the true length modulo 2^32.
   */
  function FrameLength(total: nat): (n: nat)
    ensures n < 0x1_0000_0000
    ensures 1 + total < 0x1_0000_0000 ==> n == 1 + total
  {
    (1 + total) % 0x1_0000_0000
  }

  /** The five header bytes the chunked send writes before the segments. */
  function Header(opcode: byte, segments: seq<seq<byte>>): (h: seq<byte>)
    ensures |h| == 5
  {
    BE32(FrameLength(TotalLength(segments))) + [opcode]
  }

  /** What a run of pipe writes achieved: the bytes taken, whether every write succeeded, the script left. */
  datatype Written = Written(bytes: seq<byte>, ok: bool, rest: seq<SendStep>)

  /** Writing `chunks` one write each, stopping at the first write that fails. */
  function WriteChunks(steps: seq<SendStep>, chunks: seq<seq<byte>>): (w: Written)
    ensures w.bytes <= Concat(chunks)
    ensures w.ok ==> w.bytes == Concat(chunks)
    decreases |chunks|
  {
    if chunks == [] then Written([], true, steps)
    else
      var t := Transmit(steps, chunks[0]);
      if !t.ok then Written(chunks[0][..t.accepted], false, t.rest)
      else
        var w := WriteChunks(t.rest, chunks[1..]);
        Written(chunks[0] + w.bytes, w.ok, w.rest)
  }

  /** The chunked send of a payload that fits in an array puts exactly its encoded frame on the wire. */
  lemma {:induction false} ChunkedFrameIsEncoded(opcode: byte, segments: seq<seq<byte>>)
    requires Encodable(Concat(segments))
    ensures Concat([Header(opcode, segments)] + segments) == EncodeMessage(opcode, Concat(segments))
  {
    var chunks := [Header(opcode, segments)] + segments;
    assert chunks[0] == Header(opcode, segments) && chunks[1..] == segments;
    ConcatLength(segments);
  }

  class NamedPipeUmbralSocketClient {
    /** The connection slot: null before the first request and after DisposeAsync. */
    var client: Stream?
    /** Whether DisposeAsync has disposed the semaphore that guards the slot. */
    var semaphoreDisposed: bool
    const pool: ArrayPool
    const events: UmbralSocketEventSource

    constructor (pool: ArrayPool, events: UmbralSocketEventSource)
      ensures this.pool == pool && this.events == events
      ensures client == null && !semaphoreDisposed
    {
      this.pool, this.events := pool, events;
      client, semaphoreDisposed := null, false;
    }

    predicate Connected()
      reads this, client
    {
      client != null && client.connected
    }

    /**
     * `EnsureConnectedAsync`: a connected pipe in the slot is kept as it is. Otherwise the
     * semaphore is taken (which throws once it is disposed), the old pipe is disposed, and a new
     * connected pipe takes the slot; `incoming` and `steps` are how its server will behave.
     */
    method EnsureConnected(incoming: seq<seq<byte>>, steps: seq<SendStep>) returns (ok: bool)
      modifies this`client, client
      ensures old(Connected()) ==> ok && client == old(client) && unchanged(client)
      ensures !old(Connected()) && semaphoreDisposed ==>
                !ok && client == old(client) && (client != null ==> unchanged(client))
      ensures !old(Connected()) && !semaphoreDisposed ==>
                ok && fresh(client) && client.incoming == incoming && client.steps == steps
                && client.connected && client.sent == [] && client.flushedTo == 0
                && (old(client) != null ==> !old(client).connected)
      ensures ok <==> Connected()
    {
      if client != null && client.connected {
        return true;
      }
      if semaphoreDisposed {
        return false;
      }
      if client != null {
        client.Close();
      }
      client := new Stream(incoming, steps, true);
      return true;
    }

    /**
     * `SendAsync`: connecting, then (in `try`) writing the request and reading the answer, and
     * (in `finally`) releasing the buffers and recording `latencyMs`, the elapsed time.
     */
    method SendAsync(opcode: byte, payload: seq<byte>, incoming: seq<seq<byte>>, steps: seq<SendStep>,
                     latencyMs: real) returns (r: Result<seq<byte>, ClientError>)
      requires pool.Valid()
      modifies this`client, client, pool, pool.Repr, events`latencyWindow, events`stats
      ensures !old(Connected()) && semaphoreDisposed ==>
                r == Failure(ClientError.ObjectDisposed) && events.latencyWindow == old(events.latencyWindow)
                && events.stats == old(events.stats)
      ensures old(Connected()) || !semaphoreDisposed ==>
                var pending := if old(Connected()) then old(client.Pending()) else Available(incoming);
                var script := if old(Connected()) then old(client.steps) else steps;
                var before := if old(Connected()) then old(client.sent) else [];
                && client != null && (old(Connected()) ==> client == old(client))
                && r == Exchange(pending, script, opcode, payload)
                && (var s := AfterExchange(pending, script, opcode, payload);
                    client.Pending() == s.pending && client.steps == s.steps && client.connected == s.connected)
                && (Encodable(payload) && Transmit(script, EncodeMessage(opcode, payload)).ok ==>
                      client.sent == before + EncodeMessage(opcode, payload) && client.flushedTo == |client.sent|)
                && events.latencyWindow == Slide(old(events.latencyWindow), latencyMs)
      ensures pool.Valid() && pool.lent == old(pool.lent) && pool.outstanding == old(pool.outstanding)
    {
      var ok := EnsureConnected(incoming, steps);
      if !ok {
        return Failure(ClientError.ObjectDisposed);
      }
      r := Request(client, opcode, payload);
      events.RecordLatency(latencyMs);
    }

    /** The `try` block of `SendAsync` on the connected pipe `conn`, with its `finally` releases. */
    method Request(conn: Stream, opcode: byte, payload: seq<byte>) returns (r: Result<seq<byte>, ClientError>)
      requires conn.connected && pool.Valid()
      modifies conn, pool, pool.Repr
      ensures r == Exchange(old(conn.Pending()), old(conn.steps), opcode, payload)
      ensures var s := AfterExchange(old(conn.Pending()), old(conn.steps), opcode, payload);
              conn.Pending() == s.pending && conn.steps == s.steps && conn.connected == s.connected
      ensures !Encodable(payload) ==> conn.sent == old(conn.sent) && conn.flushedTo == old(conn.flushedTo)
      ensures Encodable(payload) ==>
                var t := Transmit(old(conn.steps), EncodeMessage(opcode, payload));
                conn.sent == old(conn.sent) + EncodeMessage(opcode, payload)[..t.accepted]
                && conn.flushedTo == (if t.ok then |conn.sent| else old(conn.flushedTo))
      ensures Encodable(payload) && Transmit(old(conn.steps), EncodeMessage(opcode, payload)).ok ==>
                conn.sent == old(conn.sent) + EncodeMessage(opcode, payload) && conn.flushedTo == |conn.sent|
      ensures pool.Valid() && pool.lent == old(pool.lent) && pool.outstanding == old(pool.outstanding)
      ensures fresh(pool.Repr - old(pool.Repr))
    {
      if !Encodable(payload) {
        return Failure(MessageTooLarge);
      }
      var request := EncodeMessage(opcode, payload);
      var ok := conn.Write(request);
      if !ok {
        return Failure(WriteFailed);
      }
      conn.Flush();
      r := ReadResponse(conn, opcode);
    }

    /** Reading the answer's length; a length that cannot be rented or is 0 ends the request. */
    method ReadResponse(conn: Stream, opcode: byte) returns (r: Result<seq<byte>, ClientError>)
      requires pool.Valid()
      modifies conn, pool, pool.Repr
      ensures r == ParseResponse(old(conn.Pending()), opcode)
      ensures var s := AfterResponse(old(conn.Pending()), old(conn.steps), old(conn.connected));
              conn.Pending() == s.pending && conn.steps == s.steps && conn.connected == s.connected
      ensures conn.sent == old(conn.sent) && conn.flushedTo == old(conn.flushedTo)
      ensures pool.Valid() && pool.lent == old(pool.lent) && pool.outstanding == old(pool.outstanding)
      ensures fresh(pool.Repr - old(pool.Repr))
    {
      ghost var pending := conn.Pending();
      var lenOwner, ok := RentAndRead(pool, conn, 4);
      if !ok {
        lenOwner.Dispose();
        return Failure(ClosedReadingLength);
      }
      var len := Int32(U32BE(lenOwner.buffer[..4]));
      assert len == DeclaredLength(pending);
      if len == 0 || len < 0 || len > MaxArrayLength {
        lenOwner.Dispose();
        return if len == 0 then Failure(ServerReturnedError)
               else if len < 0 then Failure(NegativeLength)
               else Failure(LengthTooLarge);
      }
      ghost var body := conn.Pending();
      assert body == pending[4..];
      if len <= |body| {
        assert body[0] == pending[4] && body[1..len] == pending[5..4 + len];
        assert body[len..] == pending[4 + len..];
      }
      r := ReadBody(conn, opcode, len, lenOwner);
    }

    /** Reading the body and checking its opcode, then releasing the header's buffer and the body's. */
    method ReadBody(conn: Stream, opcode: byte, len: nat, lenOwner: PooledBufferOwner)
      returns (r: Result<seq<byte>, ClientError>)
      requires 0 < len <= MaxArrayLength && pool.Valid()
      requires lenOwner.pool == pool && lenOwner.Valid() && !lenOwner.disposed
      modifies conn, pool, pool.Repr, lenOwner
      ensures var pending := old(conn.Pending());
              r == if |pending| < len then Failure(ClosedReadingPayload)
                   else if pending[0] != opcode then Failure(OpcodeMismatch(opcode, pending[0]))
                   else Success(pending[1..len])
      ensures |old(conn.Pending())| < len ==> conn.Pending() == [] && !conn.connected
      ensures |old(conn.Pending())| >= len ==>
                conn.Pending() == old(conn.Pending())[len..] && conn.connected == old(conn.connected)
      ensures conn.sent == old(conn.sent) && conn.flushedTo == old(conn.flushedTo) && conn.steps == old(conn.steps)
      ensures pool.Valid() && pool.lent == old(pool.lent) - {old(lenOwner.buffer)}
      ensures pool.outstanding == old(pool.outstanding) - 1
      ensures fresh(pool.Repr - old(pool.Repr))
    {
      var owner, ok := RentAndRead(pool, conn, len);
      if !ok {
        r := Failure(ClosedReadingPayload);
      } else if owner.buffer[0] != opcode {
        r := Failure(OpcodeMismatch(opcode, owner.buffer[0]));
      } else {
        r := Success(owner.buffer[1..len]);
      }
      DisposeBoth(lenOwner, owner);
    }

    /**
     * The zero-copy `SendAsync`: connecting, then writing the header from a pooled buffer and
     * each segment in turn, flushing, and releasing the header's buffer; no answer is read.
     */
    method SendSegments(opcode: byte, segments: seq<seq<byte>>, incoming: seq<seq<byte>>,
                        steps: seq<SendStep>) returns (r: Result<(), ClientError>)
      requires pool.Valid()
      modifies this`client, client, pool, pool.Repr
      ensures !old(Connected()) && semaphoreDisposed ==> r == Failure(ClientError.ObjectDisposed)
      ensures old(Connected()) || !semaphoreDisposed ==>
                var script := if old(Connected()) then old(client.steps) else steps;
                var before := if old(Connected()) then old(client.sent) else [];
                var w := WriteChunks(script, [Header(opcode, segments)] + segments);
                && client != null && (old(Connected()) ==> client == old(client))
                && (r.Success? <==> w.ok) && (r.Failure? ==> r.error == WriteFailed)
                && client.sent == before + w.bytes
                && client.steps == w.rest && client.connected == w.ok
                && client.incoming == (if old(Connected()) then old(client.incoming) else incoming)
                && (r.Success? && Encodable(Concat(segments)) ==>
                      client.sent == before + EncodeMessage(opcode, Concat(segments)))
      ensures pool.Valid() && pool.lent == old(pool.lent) && pool.outstanding == old(pool.outstanding)
    {
      var ok := EnsureConnected(incoming, steps);
      if !ok {
        return Failure(ClientError.ObjectDisposed);
      }
      r := WriteFrame(client, opcode, segments);
      if r.Success? && Encodable(Concat(segments)) {
        ChunkedFrameIsEncoded(opcode, segments);
      }
    }

    /** The `try` block of the zero-copy send on the connected pipe `conn`. */
    method WriteFrame(conn: Stream, opcode: byte, segments: seq<seq<byte>>) returns (r: Result<(), ClientError>)
      requires conn.connected && pool.Valid()
      modifies conn, pool, pool.Repr
      ensures var w := WriteChunks(old(conn.steps), [Header(opcode, segments)] + segments);
              && (r.Success? <==> w.ok) && (r.Failure? ==> r.error == WriteFailed)
              && conn.sent == old(conn.sent) + w.bytes
              && (r.Success? ==> conn.flushedTo == |conn.sent|)
              && (r.Failure? ==> conn.flushedTo == old(conn.flushedTo))
              && conn.steps == w.rest && conn.connected == w.ok && conn.incoming == old(conn.incoming)
      ensures pool.Valid() && pool.lent == old(pool.lent) && pool.outstanding == old(pool.outstanding)
      ensures fresh(pool.Repr - old(pool.Repr))
    {
      var headerOwner := new PooledBufferOwner(pool, 5);
      var memory := headerOwner.Memory();
      var buffer := memory.value.data;
      var header := Header(opcode, segments);
      buffer[0], buffer[1], buffer[2], buffer[3], buffer[4] := header[0], header[1], header[2], header[3], header[4];
      assert buffer[..5] == header;
      r := WriteChunked(conn, buffer[..5], segments);
      headerOwner.Dispose();
    }

    /** The header's write, then the segments' writes and the flush. */
    method WriteChunked(conn: Stream, header: seq<byte>, segments: seq<seq<byte>>) returns (r: Result<(), ClientError>)
      requires conn.connected
      modifies conn
      ensures var w := WriteChunks(old(conn.steps), [header] + segments);
              && (r.Success? <==> w.ok) && (r.Failure? ==> r.error == WriteFailed)
              && conn.sent == old(conn.sent) + w.bytes
              && (r.Success? ==> conn.flushedTo == |conn.sent|)
              && (r.Failure? ==> conn.flushedTo == old(conn.flushedTo))
              && conn.steps == w.rest && conn.connected == w.ok && conn.incoming == old(conn.incoming)
    {
      ghost var chunks := [header] + segments;
      assert chunks[0] == header && chunks[1..] == segments;
      var ok := conn.Write(header);
      if !ok {
        return Failure(WriteFailed);
      }
      AppendAssociates(old(conn.sent), header, WriteChunks(conn.steps, segments).bytes);
      r := WriteSegments(conn, segments);
    }

    /** The `foreach` over the segments, one write each, then the flush. */
    method WriteSegments(conn: Stream, segments: seq<seq<byte>>) returns (r: Result<(), ClientError>)
      requires conn.connected
      modifies conn
      ensures var w := WriteChunks(old(conn.steps), segments);
              && (r.Success? <==> w.ok) && (r.Failure? ==> r.error == WriteFailed)
              && conn.sent == old(conn.sent) + w.bytes
              && (r.Success? ==> conn.flushedTo == |conn.sent|)
              && (r.Failure? ==> conn.flushedTo == old(conn.flushedTo))
              && conn.steps == w.rest && conn.connected == w.ok && conn.incoming == old(conn.incoming)
    {
      for i := 0 to |segments|
        invariant conn.connected
        invariant var w0 := WriteChunks(old(conn.steps), segments);
                  var w := WriteChunks(conn.steps, segments[i..]);
                  old(conn.sent) + w0.bytes == conn.sent + w.bytes && w0.ok == w.ok && w0.rest == w.rest
        invariant conn.incoming == old(conn.incoming) && conn.flushedTo == old(conn.flushedTo)
      {
        ghost var sent, steps := conn.sent, conn.steps;
        assert segments[i..][0] == segments[i] && segments[i..][1..] == segments[i + 1..];
        var ok := conn.Write(segments[i]);
        if !ok {
          return Failure(WriteFailed);
        }
        AppendAssociates(sent, segments[i], WriteChunks(conn.steps, segments[i + 1..]).bytes);
      }
      assert conn.sent + [] == conn.sent;
      conn.Flush();
      return Success(());
    }

    /**
     * `DisposeAsync`: takes the semaphore, disposes the pipe, empties the slot and disposes the
     * semaphore; a second call finds the semaphore disposed and throws.
     */
    method DisposeAsync() returns (r: Result<(), ClientError>)
      modifies this`client, this`semaphoreDisposed, client
      ensures old(semaphoreDisposed) ==> r == Failure(ClientError.ObjectDisposed) && client == old(client)
                                         && semaphoreDisposed && (client != null ==> unchanged(client))
      ensures !old(semaphoreDisposed) ==> r.Success? && client == null && semaphoreDisposed
                                          && (old(client) != null ==> !old(client).connected)
    {
      if semaphoreDisposed {
        return Failure(ClientError.ObjectDisposed);
      }
      if client != null {
        client.Close();
      }
      client, semaphoreDisposed := null, true;
      return Success(());
    }
  }

  /** An answer framed by the codec comes back as its payload, whatever follows it. */
  lemma {:induction false} ResponseRoundTrip(opcode: byte, payload: seq<byte>, rest: seq<byte>)
    requires Encodable(payload)
    ensures ParseResponse(EncodeMessage(opcode, payload) + rest, opcode) == Success(payload)
  {
    RoundTrip(opcode, payload, rest);
  }

  /** The server's error sentinel (length 1) passes the length-0 check and comes back as an empty answer. */
  lemma {:induction false} SentinelReadsAsEmpty(opcode: byte, rest: seq<byte>)
    ensures ParseResponse([0, 0, 0, 1, opcode] + rest, opcode) == Success([])
  {
    ResponseRoundTrip(opcode, [], rest);
  }

  /** Only a length field of 0 is reported as an error of the server. */
  lemma {:induction false} ZeroLengthIsServerError(opcode: byte, rest: seq<byte>)
    ensures ParseResponse([0, 0, 0, 0] + rest, opcode) == Failure(ServerReturnedError)
  {
    var input := [0, 0, 0, 0] + rest;
    assert input[..4] == [0, 0, 0, 0];
  }

  /** An answer carrying another opcode is refused, naming both opcodes. */
  lemma {:induction false} OtherOpcodeIsMismatch(opcode: byte, other: byte, payload: seq<byte>, rest: seq<byte>)
    requires Encodable(payload) && other != opcode
    ensures ParseResponse(EncodeMessage(other, payload) + rest, opcode) == Failure(OpcodeMismatch(opcode, other))
  {
    EncodedFields(other, payload, rest);
  }

  /** A pipe that closes inside the answer fails the request: in the length, or in the body. */
  lemma {:induction false} TruncatedResponseIsClosed(opcode: byte, payload: seq<byte>, k: nat)
    requires Encodable(payload) && k < 5 + |payload|
    ensures ParseResponse(EncodeMessage(opcode, payload)[..k], opcode)
            == if k < 4 then Failure(ClosedReadingLength) else Failure(ClosedReadingPayload)
  {
    var e := EncodeMessage(opcode, payload);
    if k >= 4 {
      assert e[..k][..4] == e[..4];
    }
  }

  /**
   * Client and server together: a request the named-pipe server reads from a peer that takes
   * the answer in one write comes back as the handler's reply, or as an empty answer when the
   * server could only write the sentinel.
   */
  lemma {:induction false} RequestGetsHandlerReply(handlers: map<byte, Handler>, opcode: byte, payload: seq<byte>)
    requires Encodable(payload)
    ensures var served := PipeServe(handlers, EncodeMessage(opcode, payload), GenerousPeer(1), true);
            ParseResponse(served.written, opcode)
            == Success(if Response(handlers, opcode, payload).Some? then handlers[opcode](payload).bytes else [])
  {
    var f := Frame(opcode, payload);
    assert Requests([f]) == EncodeMessage(opcode, payload) + [];
    assert Requests([f]) == EncodeMessage(opcode, payload);
    NamedPipeServer.ServesRequestsInOrder(handlers, [f]);
    assert Answers(handlers, [f]) == Answer(handlers, opcode, payload) + [];
    match Response(handlers, opcode, payload)
    case Some(response) =>
      ResponseRoundTrip(opcode, handlers[opcode](payload).bytes, []);
      assert response + [] == response;
    case None =>
      SentinelReadsAsEmpty(opcode, []);
      assert Sentinel(opcode) + [] == Sentinel(opcode);
  }
}
