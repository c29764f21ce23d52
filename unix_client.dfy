/**
 * The Unix-domain-socket client. Every request opens its own connection, hands the framed
 * request to one send call (its count is not looked at and nothing is resent), reads a 4-byte
 * length and a body of that length into fresh arrays, checks the opcode and returns the rest
 * of the body. Each failure is an exception in the library and an error value here.
 */
module UnixClient {
  import opened Bytes
  import opened Wrappers
  import opened UmbralProtocol
  import opened Channel
  import opened Handlers
  import opened UnixServer

  datatype ClientError =
    | MessageTooLarge           // the request frame is larger than any array
    | SendFailed                // the send call threw
    | ConnectionClosed          // a read of 0 bytes before the header or the body was complete
    | NegativeLength            // `new byte[len]` with the sign bit set throws an overflow error
    | LengthTooLarge            // `new byte[len]` beyond the largest array runs out of memory
    | EmptyBody                 // a length of 0: reading the opcode byte is out of range
    | OpcodeMismatch(got: byte) // the answer carries another opcode

  /** What the client makes of the bytes the server sends back to a request for `opcode`. */
  function ParseReply(pending: seq<byte>, opcode: byte): (r: Result<seq<byte>, ClientError>)
    ensures r.Success? <==> TryDecode(pending).Decoded? && TryDecode(pending).frame.opcode == opcode
                            && 1 + |TryDecode(pending).frame.payload| <= MaxArrayLength
    ensures r.Success? ==> r.value == TryDecode(pending).frame.payload
  {
    if |pending| < 4 then Failure(ConnectionClosed)
    else
      var len := DeclaredLength(pending);
      if len < 0 then Failure(NegativeLength)
      else if len > MaxArrayLength then Failure(LengthTooLarge)
      else if |pending| - 4 < len then Failure(ConnectionClosed)
      else if len == 0 then Failure(EmptyBody)
      else if pending[4] != opcode then Failure(OpcodeMismatch(pending[4]))
      else Success(pending[5..4 + len])
  }

  /** How many bytes one send call hands to a peer following `steps`; 0 when the call fails. */
  function OneSend(steps: seq<SendStep>, size: nat): (k: nat)
    ensures k <= size
  {
    if steps == [] || steps[0].Break? then 0 else Min(steps[0].n, size)
  }

  /**
   * One request on a fresh connection whose peer sends `pending` and takes bytes as `steps`
   * says: the frame must fit in an array, the send call must not fail, and then the reply decides.
   */
  function Exchange(pending: seq<byte>, steps: seq<SendStep>, opcode: byte, payload: seq<byte>)
    : Result<seq<byte>, ClientError>
  {
    if !Encodable(payload) then Failure(MessageTooLarge)
    else if steps == [] || steps[0].Break? then Failure(SendFailed)
    else ParseReply(pending, opcode)
  }

  /**
   * `SendAsync`: connects (the connection's behaviour is the arguments), sends, reads the
   * answer, and disposes the socket. Nothing outlives the call; `sent` is what the peer took.
   */
  method SendAsync(opcode: byte, payload: seq<byte>, incoming: seq<seq<byte>>, steps: seq<SendStep>)
    returns (r: Result<seq<byte>, ClientError>, ghost sent: seq<byte>)
    ensures r == Exchange(Available(incoming), steps, opcode, payload)
    ensures !Encodable(payload) ==> sent == []
    ensures Encodable(payload) ==> sent == EncodeMessage(opcode, payload)[..OneSend(steps, 5 + |payload|)]
  {
    var socket := new Stream(incoming, steps, true);
    r := Converse(socket, opcode, payload);
    sent := socket.sent;
    socket.Close();
  }

  /** The body of `SendAsync` between connecting and disposing the socket. */
  method Converse(socket: Stream, opcode: byte, payload: seq<byte>) returns (r: Result<seq<byte>, ClientError>)
    requires socket.sent == []
    modifies socket
    ensures r == Exchange(old(socket.Pending()), old(socket.steps), opcode, payload)
    ensures !Encodable(payload) ==> socket.sent == []
    ensures Encodable(payload) ==>
              socket.sent == EncodeMessage(opcode, payload)[..OneSend(old(socket.steps), 5 + |payload|)]
  {
    if !Encodable(payload) {
      return Failure(MessageTooLarge);
    }
    var request := EncodeMessage(opcode, payload);
    var taken := socket.Send(request);
    if taken.None? {
      return Failure(SendFailed);
    }
    r := ReadReply(socket, opcode);
  }

  /** Reading the length, then the body, then checking the opcode. */
  method ReadReply(socket: Stream, opcode: byte) returns (r: Result<seq<byte>, ClientError>)
    modifies socket
    ensures r == ParseReply(old(socket.Pending()), opcode)
    ensures socket.sent == old(socket.sent)
  {
    ghost var pending := socket.Pending();
    var lenBuffer := new byte[4];
    var ok := ReadExact(socket, lenBuffer, 4);
    if !ok {
      return Failure(ConnectionClosed);
    }
    var len := Int32(U32BE(lenBuffer[..]));
    assert lenBuffer[..] == pending[..4];
    if len < 0 {
      return Failure(NegativeLength);
    }
    if len > MaxArrayLength {
      return Failure(LengthTooLarge);
    }
    var buffer := new byte[len];
    ok := ReadExact(socket, buffer, len);
    if !ok {
      return Failure(ConnectionClosed);
    }
    assert buffer[..] == pending[4..][..len];
    if len == 0 {
      return Failure(EmptyBody);
    }
    if buffer[0] != opcode {
      return Failure(OpcodeMismatch(buffer[0]));
    }
    assert buffer[1..len] == pending[5..4 + len];
    return Success(buffer[1..len]);
  }

  /** An answer framed by the codec comes back as its payload, whatever follows it. */
  lemma {:induction false} ReplyRoundTrip(opcode: byte, payload: seq<byte>, rest: seq<byte>)
    requires Encodable(payload)
    ensures ParseReply(EncodeMessage(opcode, payload) + rest, opcode) == Success(payload)
  {
    RoundTrip(opcode, payload, rest);
  }

  /** The server's error sentinel is taken for a successful empty answer. */
  lemma {:induction false} SentinelReadsAsEmpty(opcode: byte, rest: seq<byte>)
    ensures ParseReply([0, 0, 0, 1, opcode] + rest, opcode) == Success([])
  {
    ReplyRoundTrip(opcode, [], rest);
  }

  /** A zero length header fails on the opcode read, not as a closed connection. */
  lemma {:induction false} ZeroLengthIsEmptyBody(opcode: byte, rest: seq<byte>)
    ensures ParseReply([0, 0, 0, 0] + rest, opcode) == Failure(EmptyBody)
  {
    var input := [0, 0, 0, 0] + rest;
    assert input[..4] == [0, 0, 0, 0];
  }

  /** An answer carrying another opcode is refused, naming the opcode it carried. */
  lemma {:induction false} OtherOpcodeIsMismatch(opcode: byte, other: byte, payload: seq<byte>, rest: seq<byte>)
    requires Encodable(payload) && other != opcode
    ensures ParseReply(EncodeMessage(other, payload) + rest, opcode) == Failure(OpcodeMismatch(other))
  {
    EncodedFields(other, payload, rest);
  }

  /** A server that closes before the whole answer arrived leaves the client with a closed connection. */
  lemma {:induction false} TruncatedReplyIsClosed(opcode: byte, payload: seq<byte>, k: nat)
    requires Encodable(payload) && k < 5 + |payload|
    ensures ParseReply(EncodeMessage(opcode, payload)[..k], opcode) == Failure(ConnectionClosed)
  {
    var e := EncodeMessage(opcode, payload);
    if k >= 4 {
      assert e[..k][..4] == e[..4];
    }
  }

  /**
   * Client and server together: a request the Unix server reads from a peer that takes the
   * answer in one call comes back as the handler's reply, or as an empty answer when the
   * server could only send the sentinel.
   */
  lemma {:induction false} RequestGetsHandlerReply(handlers: map<byte, Handler>, opcode: byte, payload: seq<byte>)
    requires Encodable(payload)
    ensures var served := UnixServe(handlers, EncodeMessage(opcode, payload), GenerousPeer(1));
            ParseReply(served.written, opcode)
            == Success(if Response(handlers, opcode, payload).Some? then handlers[opcode](payload).bytes else [])
  {
    var f := Frame(opcode, payload);
    assert Requests([f]) == EncodeMessage(opcode, payload) + [];
    assert Requests([f]) == EncodeMessage(opcode, payload);
    ServesRequestsInOrder(handlers, [f]);
    assert Answers(handlers, [f]) == Answer(handlers, opcode, payload) + [];
    match Response(handlers, opcode, payload)
    case Some(response) =>
      ReplyRoundTrip(opcode, handlers[opcode](payload).bytes, []);
      assert response + [] == response;
    case None =>
      SentinelReadsAsEmpty(opcode, []);
      assert Sentinel(opcode) + [] == Sentinel(opcode);
  }
}
