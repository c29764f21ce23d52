/**
 * Request handlers as the servers see them, and the answer a request earns: the handler's
 * reply framed under the request's opcode, or the error sentinel.
 */
module Handlers {
  import opened Bytes
  import opened Wrappers
  import opened UmbralProtocol
  import opened Channel

  /**
   * What a handler does with a payload: return reply bytes, or throw. A null reply becomes an
   * empty `ReadOnlyMemory` when it is framed, so it is `Returns([])`. It is `Throws` only when an
   * activity source is configured, because tagging its length then throws inside the `try`.
   */
  datatype Reply = Returns(bytes: seq<byte>) | Throws

  type Handler = seq<byte> -> Reply

  /**
   * The response frame for a request, if there is one: the opcode must be registered, its
   * handler must return, and the reply must fit in an array once framed.
   */
  function Response(handlers: map<byte, Handler>, opcode: byte, payload: seq<byte>): (r: Option<seq<byte>>)
    ensures r.Some? <==> opcode in handlers && handlers[opcode](payload).Returns?
                         && Encodable(handlers[opcode](payload).bytes)
    ensures r.Some? ==> 5 <= |r.value| <= MaxArrayLength
    ensures r.Some? ==> TryDecode(r.value) == Decoded(Frame(opcode, handlers[opcode](payload).bytes))
  {
    if opcode in handlers && handlers[opcode](payload).Returns?
       && Encodable(handlers[opcode](payload).bytes)
    then
      var reply := handlers[opcode](payload).bytes;
      RoundTrip(opcode, reply, []);
      assert EncodeMessage(opcode, reply) + [] == EncodeMessage(opcode, reply);
      Some(EncodeMessage(opcode, reply))
    else None
  }

  /**
   * An empty reply (or a null one) is framed and sent as a normal response. Its bytes equal the
   * error sentinel, but the server counts them as sent and sends them on the reply's path.
   */
  lemma {:induction false} EmptyReplyIsFramedLikeSentinel(handlers: map<byte, Handler>, opcode: byte, payload: seq<byte>)
    requires opcode in handlers && handlers[opcode](payload) == Returns([])
    ensures Response(handlers, opcode, payload) == Some(Sentinel(opcode))
  {
  }

  /** The bytes a server owes a request when every send succeeds. */
  function Answer(handlers: map<byte, Handler>, opcode: byte, payload: seq<byte>): (r: seq<byte>)
    ensures 5 <= |r| <= MaxArrayLength
    ensures TryDecode(r).Decoded? && TryDecode(r).frame.opcode == opcode
    ensures Response(handlers, opcode, payload).None? ==> TryDecode(r).frame.payload == []
  {
    match Response(handlers, opcode, payload)
    case Some(response) => response
    case None =>
      RoundTrip(opcode, [], []);
      assert Sentinel(opcode) + [] == Sentinel(opcode);
      Sentinel(opcode)
  }

  predicate AllEncodable(frames: seq<Frame>)
  {
    forall i :: 0 <= i < |frames| ==> Encodable(frames[i].payload)
  }

  /** A client's requests back to back on one connection. */
  function Requests(frames: seq<Frame>): seq<byte>
    requires AllEncodable(frames)
  {
    if frames == [] then []
    else EncodeMessage(frames[0].opcode, frames[0].payload) + Requests(frames[1..])
  }

  /** The answers to those requests, in order. */
  function Answers(handlers: map<byte, Handler>, frames: seq<Frame>): seq<byte>
  {
    if frames == [] then []
    else Answer(handlers, frames[0].opcode, frames[0].payload) + Answers(handlers, frames[1..])
  }

  /** A peer that takes a whole frame in every send call, for `n` calls. */
  function GenerousPeer(n: nat): (s: seq<SendStep>)
    ensures |s| == n && forall i :: 0 <= i < n ==> s[i] == Accept(MaxArrayLength)
  {
    if n == 0 then [] else [Accept(MaxArrayLength)] + GenerousPeer(n - 1)
  }

  /** Such a peer takes any frame in one call. */
  lemma GenerousPeerTakesFrame(n: nat, frame: seq<byte>)
    requires n >= 1 && 0 < |frame| <= MaxArrayLength
    ensures Transmit(GenerousPeer(n), frame) == Transfer(|frame|, true, GenerousPeer(n - 1))
  {
    var s := GenerousPeer(n);
    assert s[1..] == GenerousPeer(n - 1);
    assert frame[|frame|..] == [];
  }
}
