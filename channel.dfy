/**
 * The connection a socket or a pipe stands for, seen from one end. What the peer sends is a
 * script of chunks: each read takes bytes from the head chunk, and an empty chunk or the end
 * of the script is the peer closing (a read of 0 bytes). What the peer accepts is a script of
 * send steps: `Accept(n)` takes up to `n` bytes in one call, `Break` (or the end of the
 * script) makes the call fail.
 */
module Channel {
  import opened Bytes
  import opened Wrappers

  datatype SendStep = Accept(n: nat) | Break

  /** What a run of send calls achieved: bytes taken, whether all were taken, the script left. */
  datatype Transfer = Transfer(accepted: nat, ok: bool, rest: seq<SendStep>)

  /** The bytes a reader can still obtain: the chunks before the first empty one. */
  function Available(chunks: seq<seq<byte>>): (r: seq<byte>)
    ensures r == [] <==> chunks == [] || chunks[0] == []
  {
    if chunks == [] || chunks[0] == [] then [] else chunks[0] + Available(chunks[1..])
  }

  /**
   * Sending `bytes` by calling send until all are taken, as the socket send loops do: every
   * call consumes one step, and the first failing step ends the transfer.
   */
  function Transmit(steps: seq<SendStep>, bytes: seq<byte>): (t: Transfer)
    ensures t.accepted <= |bytes|
    ensures t.ok <==> t.accepted == |bytes|
    ensures |t.rest| <= |steps|
    decreases |steps|
  {
    if bytes == [] then Transfer(0, true, steps)
    else if steps == [] then Transfer(0, false, [])
    else match steps[0]
      case Break => Transfer(0, false, steps[1..])
      case Accept(n) =>
        var k := Min(n, |bytes|);
        var t := Transmit(steps[1..], bytes[k..]);
        Transfer(k + t.accepted, t.ok, t.rest)
  }

  /**
   * A send call the peer accepts `k` bytes of, when `total` bytes have gone before it: the
   * rest of the transfer is the transfer of what is left after those `k`.
   */
  lemma TransmitAfterAccept(steps: seq<SendStep>, bytes: seq<byte>, total: nat, k: nat)
    requires total < |bytes| && steps != [] && steps[0].Accept? && k == Min(steps[0].n, |bytes| - total)
    ensures total + k <= |bytes|
    ensures Transmit(steps, bytes[total..]) ==
              var t := Transmit(steps[1..], bytes[total + k..]); Transfer(k + t.accepted, t.ok, t.rest)
  {
    assert bytes[total..][k..] == bytes[total + k..];
  }

  /** A send call the peer refuses ends the transfer with nothing more taken. */
  lemma TransmitRefused(steps: seq<SendStep>, bytes: seq<byte>, total: nat)
    requires total < |bytes| && (steps == [] || steps[0].Break?)
    ensures Transmit(steps, bytes[total..]) == Transfer(0, false, if steps == [] then [] else steps[1..])
  {
  }

  /** Nothing left to send: the transfer is complete and no step is used. */
  lemma TransmitNothing(steps: seq<SendStep>, bytes: seq<byte>)
    ensures Transmit(steps, bytes[|bytes|..]) == Transfer(0, true, steps)
  {
    assert bytes[|bytes|..] == [];
  }

  class Stream {
    /** What the peer sends, chunk by chunk. */
    var incoming: seq<seq<byte>>
    /** How the peer takes what is sent. */
    var steps: seq<SendStep>
    /** Every byte the peer has taken, in order. */
    var sent: seq<byte>
    /** How many of `sent` have been flushed. */
    var flushedTo: nat
    /** `IsConnected`: false once a read saw the peer close, a write failed, or the stream was closed. */
    var connected: bool

    function Pending(): seq<byte>
      reads this
    {
      Available(incoming)
    }

    constructor (incoming: seq<seq<byte>>, steps: seq<SendStep>, connected: bool)
      ensures this.incoming == incoming && this.steps == steps && this.connected == connected
      ensures sent == [] && flushedTo == 0
    {
      this.incoming, this.steps, this.connected := incoming, steps, connected;
      sent, flushedTo := [], 0;
    }

    /** One read of at most `count` bytes into `dest[offset..]`; 0 means the peer closed. */
    method Receive(dest: array<byte>, offset: nat, count: nat) returns (n: nat)
      requires 0 < count && offset + count <= dest.Length
      modifies this, dest
      ensures n <= count && n <= |old(Pending())|
      ensures n == 0 <==> old(Pending()) == []
      ensures dest[offset..offset + n] == old(Pending())[..n]
      ensures dest[..offset] == old(dest[..offset])
      ensures Pending() == old(Pending())[n..]
      ensures sent == old(sent) && steps == old(steps) && flushedTo == old(flushedTo)
      ensures connected == (old(connected) && n != 0)
    {
      if incoming == [] || incoming[0] == [] {
        connected := false;
        return 0;
      }
      var head := incoming[0];
      n := Min(count, |head|);
      forall i | 0 <= i < n {
        dest[offset + i] := head[i];
      }
      if n == |head| {
        incoming := incoming[1..];
      } else {
        incoming := [head[n..]] + incoming[1..];
        assert Available(incoming) == head[n..] + Available(old(incoming)[1..]);
      }
      assert old(Available(incoming)) == head + Available(old(incoming)[1..]);
    }

    /** One socket send call: the peer takes a prefix of `bytes`, or the call fails. */
    method Send(bytes: seq<byte>) returns (r: Option<nat>)
      modifies this
      ensures r.Some? <==> old(steps) != [] && old(steps)[0].Accept?
      ensures r.Some? ==> r.value == Min(old(steps)[0].n, |bytes|)
                          && sent == old(sent) + bytes[..r.value]
      ensures r.None? ==> sent == old(sent)
      ensures steps == if old(steps) == [] then [] else old(steps)[1..]
      ensures incoming == old(incoming) && flushedTo == old(flushedTo) && connected == old(connected)
    {
      if steps == [] {
        return None;
      }
      var step := steps[0];
      steps := steps[1..];
      match step {
        case Break =>
          r := None;
        case Accept(n) =>
          var k := Min(n, |bytes|);
          sent := sent + bytes[..k];
          r := Some(k);
      }
    }

    /**
     * One pipe write of all of `bytes`: on a connected pipe the peer takes them as Transmit
     * says; a failed write breaks the pipe, and a write on a broken pipe fails at once.
     */
    method Write(bytes: seq<byte>) returns (ok: bool)
      modifies this
      ensures !old(connected) ==> !ok && sent == old(sent) && steps == old(steps) && !connected
      ensures old(connected) ==>
                var t := Transmit(old(steps), bytes);
                ok == t.ok && sent == old(sent) + bytes[..t.accepted] && steps == t.rest
                && connected == t.ok
      ensures incoming == old(incoming) && flushedTo == old(flushedTo)
    {
      if !connected {
        return false;
      }
      var t := Transmit(steps, bytes);
      sent := sent + bytes[..t.accepted];
      steps := t.rest;
      ok := t.ok;
      connected := t.ok;
    }

    method Flush()
      modifies this
      ensures flushedTo == |sent|
      ensures incoming == old(incoming) && steps == old(steps) && sent == old(sent)
      ensures connected == old(connected)
    {
      flushedTo := |sent|;
    }

    /** Disposing the socket or pipe. */
    method Close()
      modifies this
      ensures !connected
      ensures incoming == old(incoming) && steps == old(steps) && sent == old(sent)
      ensures flushedTo == old(flushedTo)
    {
      connected := false;
    }
  }

  /**
   * The read loop every endpoint uses to fill a buffer (`ReceiveAllAsync` / `ReadExactAsync`):
   * read until `count` bytes have arrived, or give up at the first read of 0 bytes.
   */
  method ReadExact(s: Stream, buf: array<byte>, count: nat) returns (ok: bool)
    requires count <= buf.Length
    modifies s, buf
    ensures ok <==> count <= |old(s.Pending())|
    ensures ok ==> buf[..count] == old(s.Pending())[..count] && s.Pending() == old(s.Pending())[count..]
    ensures !ok ==> s.Pending() == []
    ensures s.sent == old(s.sent) && s.steps == old(s.steps) && s.flushedTo == old(s.flushedTo)
    ensures s.connected == (old(s.connected) && ok)
  {
    var read := 0;
    while read < count
      invariant 0 <= read <= count && read <= |old(s.Pending())|
      invariant buf[..read] == old(s.Pending())[..read]
      invariant s.Pending() == old(s.Pending())[read..]
      invariant s.sent == old(s.sent) && s.steps == old(s.steps) && s.flushedTo == old(s.flushedTo)
      invariant s.connected == old(s.connected)
    {
      var n := s.Receive(buf, read, count - read);
      if n == 0 {
        return false;
      }
      assert buf[..read + n] == buf[..read] + buf[read..read + n];
      read := read + n;
    }
    return true;
  }
}
