# UmbralSocket.Net: the frame protocol, buffers, dispatch loops and clients in Dafny

UmbralSocket.Net is a small request/response IPC library for .NET. It runs over Unix domain sockets or Windows named pipes. Every message is one frame: a 4-byte big-endian length, an opcode byte and a payload. The length counts the opcode and the payload. A server keeps a table from opcode to handler. For each frame it reads, it sends back the handler's reply framed under the same opcode. When there is no handler, or the handler fails, it sends the error sentinel `[0,0,0,1,opcode]` instead.

This project models the following in Dafny:

- the frame codec (`UmbralProtocol`);
- the pooled buffer owner over an array pool (`Transport`);
- the flattening of multi-segment byte sequences (`SequenceExtensions`);
- the dispatch loop of each server, one connection at a time (`UnixServer`, `NamedPipeServer`);
- both clients (`UnixClient`, `NamedPipeClient`);
- the latency window and counters of the diagnostics event source (`Diagnostics`).

The connection is an abstract stream (`Channel.Stream`):

- What the peer sends is a script of chunks. A read takes bytes from the head chunk. An empty chunk, or the end of the script, is the peer closing (a read of 0 bytes).
- What the peer takes is a script of send steps. `Accept(n)` takes at most `n` bytes in one call. `Break` makes the call throw.
- Every byte the peer took is kept in a log.

Each dispatch loop is a `while` loop whose body is proved against a specification of one round (`UnixRound`, `PipeRound`). The loop itself is proved against the specification of a whole connection (`UnixServe`, `PipeServe`). Those specifications are then shown to answer well-formed requests in order, one answer per request. Integers are unbounded. Where the source truncates or reinterprets an integer, the model does so explicitly. This covers the signed reading of the length header, the unchecked `len - 1` of the decoder, and the `(int)`/`(uint)` casts of the chunked send. The largest array the runtime allocates is `Array.MaxLength = 0x7FFFFFC7`. The encoder, the servers and the clients treat each allocation that would throw as an error outcome. The sequence flattening does not (see "## Left out").

The two servers differ, and the model keeps them apart:

- The Unix server releases both buffers in `finally` blocks on every path (`pool.lent` is unchanged by a round).
- The named-pipe server releases them by explicit calls, which its `break` and throw paths skip. `PipeRound` counts the buffers each round leaves rented (`leaked`).

The servers mark the sentinel as an error ("empty payload indicates error", src/UmbralSocket.Net/Unix/UnixUmbralSocketServer.cs:192), and the named-pipe client's exception text speaks of an empty response as a server error (src/UmbralSocket.Net/Windows/NamedPipeUmbralSocketClient.cs:74). The code of both clients does not treat the sentinel as one: it returns the sentinel's empty payload as a successful empty answer. The named-pipe client reports an error only for a length field of 0. The model follows the code (`UnixClient.SentinelReadsAsEmpty`, `NamedPipeClient.SentinelReadsAsEmpty`).

## Model

| member | source | states |
|---|---|---|
| Bytes.Int32 | src/UmbralSocket.Net/Unix/UnixUmbralSocketServer.cs:126 | the `(int)` cast of the unsigned header keeps the value modulo 2^32 in the signed range, and is negative exactly when the top bit is set |
| Bytes.U32OfBE32 | src/UmbralSocket.Net/Common/UmbralProtocol.cs:21 | reading back the big-endian bytes written for `n` gives `n` |
| Bytes.BE32OfU32 | src/UmbralSocket.Net/Common/UmbralProtocol.cs:37 | any four header bytes are the big-endian encoding of the value they are read as |
| Bytes.SignBitIsNegative | src/UmbralSocket.Net/Windows/NamedPipeUmbralSocketServer.cs:114 | a header whose first byte has its top bit set is read as a negative length |
| UmbralProtocol.EncodeMessage | src/UmbralSocket.Net/Common/UmbralProtocol.cs:17-24 | the frame has 5+\|payload\| bytes; bytes 0..3 are 1+\|payload\| big-endian, and they read back as that positive signed length; byte 4 is the opcode; the rest is the payload verbatim |
| UmbralProtocol.Sentinel | src/UmbralSocket.Net/Unix/UnixUmbralSocketServer.cs:193 | the error response is exactly `[0,0,0,1,opcode]` |
| UmbralProtocol.SliceCount | src/UmbralSocket.Net/Common/UmbralProtocol.cs:44 | the `len - 1` handed to `Slice` in unchecked 32-bit arithmetic is `len - 1`, except for `int.MinValue`, where it wraps to `int.MaxValue` |
| UmbralProtocol.TryDecode | src/UmbralSocket.Net/Common/UmbralProtocol.cs:31-46 | a frame is decoded iff there are at least 5 bytes and either the signed length L is at least 1 with 4+L bytes present, or L is `int.MinValue` with at least 2^31+4 bytes present. The frame is then byte 4 and the L-1 bytes from offset 5, or 2^31-1 bytes in the wrapped case. Every other input of at least 5 bytes with L <= 0 is the `Slice` error, and fewer than 5 bytes are always incomplete |
| UmbralProtocol.DecodedReadsUnsigned | src/UmbralSocket.Net/Common/UmbralProtocol.cs:37-45 | read as unsigned, the header n decodes iff 1 <= n <= 2^31 and 4+n bytes are present, and the payload is the n-1 bytes after the opcode |
| UmbralProtocol.MinLengthWrapsToLargestSlice | src/UmbralSocket.Net/Common/UmbralProtocol.cs:37-45 | the header `[0x80,0,0,0]` has a negative declared length, yet on an input of at least 2^31+4 bytes it decodes to a frame with a 2^31-1 byte payload |
| UmbralProtocol.RoundTrip | test/UmbralSocket.Net.Tests/BasicProtocolTests.cs:23-32 | decoding an encoded frame gives back its opcode and payload, whatever bytes follow it |
| UmbralProtocol.EncodedFields | src/UmbralSocket.Net/Common/UmbralProtocol.cs:17-24 | the length, opcode, payload and trailing bytes of an encoded frame are found at their offsets at the front of a stream |
| UmbralProtocol.DecodedIsFramed | src/UmbralSocket.Net/Common/UmbralProtocol.cs:31-46 | conversely, a decoded frame is exactly the encoding of its opcode and payload at the front of the input |
| UmbralProtocol.DecodeIgnoresTrailing | src/UmbralSocket.Net/Common/UmbralProtocol.cs:39-45 | bytes after a complete frame do not change what it decodes to |
| UmbralProtocol.NonPositiveLengthNeverDecodes | src/UmbralSocket.Net/Common/UmbralProtocol.cs:37-44 | a declared length of 0, or one with the sign bit set, ends in the `Slice` error and never in a frame. The one exception is the header `[0x80,0,0,0]` on at least 2^31+4 bytes, the case of `MinLengthWrapsToLargestSlice` |
| UmbralProtocol.TruncatedFrameIsIncomplete | src/UmbralSocket.Net/Common/UmbralProtocol.cs:39-40 | a frame cut short after its opcode decodes as incomplete |
| Transport.ArrayPool.Rent | src/Transport/PooledBufferOwner.cs:17 | the pool hands out an array of at least `n` bytes that no current renter holds, reused or fresh, and counts it as rented |
| Transport.ArrayPool.Return | src/Transport/PooledBufferOwner.cs:34 | a rented array goes back exactly once: it leaves the rented set and joins the free list and the return log |
| Transport.PooledBufferOwner.constructor | src/Transport/PooledBufferOwner.cs:15-19 | the owner rents an array of at least `length` bytes, which becomes rented in the pool |
| Transport.PooledBufferOwner.Memory | src/Transport/PooledBufferOwner.cs:21-28 | before disposal, every read exposes the same array starting at index 0, with exactly the requested length; after disposal it fails with ObjectDisposed |
| Transport.PooledBufferOwner.Dispose | src/Transport/PooledBufferOwner.cs:30-38 | the first call returns the array and clears it; later calls change nothing. `disposed` holds exactly when the array is null (the `Valid` invariant) |
| Transport.DisposeRepeatedly | src/Transport/PooledBufferOwner.cs:30-38 | however many times an owner is disposed, its array appears exactly once more in the pool's return log, and the memory is then inaccessible |
| Transport.RentAndRead | src/UmbralSocket.Net/Windows/NamedPipeUmbralSocketServer.cs:106-108 | a fresh owner of `len` bytes is filled from the stream iff `len` bytes are still to come, and its array is counted as rented |
| Transport.DisposeBoth | src/UmbralSocket.Net/Windows/NamedPipeUmbralSocketServer.cs:202-203 | releasing the header buffer and then the body buffer returns both arrays, in that order |
| SequenceExtensions.ToArray | src/UmbralSocket.Net/SequenceExtensions.cs:15-25 | the result has the sequence's total length, and byte j of segment i lands at that segment's offset plus j |
| SequenceExtensions.ToArrayLayout | src/UmbralSocket.Net/SequenceExtensions.cs:22-24 | the segment-by-segment copy puts every segment at its offset, and fills the array exactly |
| SequenceExtensions.ConcatLength | src/UmbralSocket.Net/SequenceExtensions.cs:22 | the concatenated segments are as long as the sequence's total length |
| SequenceExtensions.ConcatAt | src/UmbralSocket.Net/SequenceExtensions.cs:23 | byte j of segment i is found at offset(i)+j of the concatenation |
| SequenceExtensions.OffsetBound | src/UmbralSocket.Net/SequenceExtensions.cs:23 | every segment ends within the total length |
| SequenceExtensions.ConcatAppend | src/UmbralSocket.Net/SequenceExtensions.cs:23 | appending a segment appends its bytes to the concatenation and its length to the total |
| SequenceExtensions.SingleSegmentAgrees | src/UmbralSocket.Net/SequenceExtensions.cs:17-19 | the single-segment fast path returns the same bytes as the general copy |
| SequenceExtensions.ToArrayIsConcat | src/UmbralSocket.Net/SequenceExtensions.cs:15-25 | both paths give the segments concatenated in order |
| SequenceExtensions.EmptyYieldsEmpty | src/UmbralSocket.Net/SequenceExtensions.cs:15-25 | an empty sequence, or one of empty segments only, yields an empty array |
| Channel.Available | src/UmbralSocket.Net/Unix/UnixUmbralSocketServer.cs:255-256 | nothing more can be read exactly when the peer has closed |
| Channel.Transmit | src/UmbralSocket.Net/Unix/UnixUmbralSocketServer.cs:180-185 | sending by repeated calls takes at most all the bytes, succeeds exactly when it takes all of them, and uses up send steps |
| Channel.Stream.Receive | src/UmbralSocket.Net/Unix/UnixUmbralSocketServer.cs:255 | one read copies the next 1..count pending bytes into the buffer at the offset and consumes them; a read of 0 happens exactly when the peer has closed |
| Channel.Stream.Send | src/UmbralSocket.Net/Unix/UnixUmbralSocketClient.cs:40 | one send call either throws or appends the prefix of the bytes the peer takes to the log |
| Channel.Stream.Write | src/UmbralSocket.Net/Windows/NamedPipeUmbralSocketServer.cs:162 | a pipe write appends what the peer takes and succeeds iff it takes everything; a failed write breaks the pipe, and a broken pipe's write fails at once |
| Channel.Stream.Flush | src/UmbralSocket.Net/Windows/NamedPipeUmbralSocketServer.cs:163 | everything written so far is flushed, and nothing else changes |
| Channel.Stream.Close | src/UmbralSocket.Net/Unix/UnixUmbralSocketServer.cs:83 | disposing the socket or pipe leaves it disconnected, and the log stays as it was |
| Channel.ReadExact | src/UmbralSocket.Net/Unix/UnixUmbralSocketServer.cs:250-260 | the fill loop succeeds iff `count` bytes were still to come, and then holds exactly those bytes. Otherwise it stops at the first 0-byte read with everything consumed. The same loop is `ReadExactAsync` (src/UmbralSocket.Net/Windows/NamedPipeUmbralSocketServer.cs:213-223, src/UmbralSocket.Net/Windows/NamedPipeUmbralSocketClient.cs:169-179) and the Unix client's `ReceiveAllAsync` (src/UmbralSocket.Net/Unix/UnixUmbralSocketClient.cs:57-67) |
| Handlers.Response | src/UmbralSocket.Net/Unix/UnixUmbralSocketServer.cs:158-163 | there is a response iff the opcode is registered, its handler returns, and the framed reply fits in an array; the response is then that reply framed under the request's opcode |
| Handlers.EmptyReplyIsFramedLikeSentinel | src/UmbralSocket.Net/Unix/UnixUmbralSocketServer.cs:162-177 | a handler's empty (or null) reply becomes a normal response whose bytes equal `[0,0,0,1,opcode]`, counted as sent on the reply's path |
| Handlers.Answer | src/UmbralSocket.Net/Unix/UnixUmbralSocketServer.cs:158-231 | what a request is owed decodes as a frame under its opcode, with an empty payload when there is no response |
| Handlers.GenerousPeerTakesFrame | src/UmbralSocket.Net/Unix/UnixUmbralSocketServer.cs:180-185 | a peer that takes a whole frame per call takes any frame in one call |
| UnixServer.UnixRound | src/UmbralSocket.Net/Unix/UnixUmbralSocketServer.cs:113-247 | a round that goes on has consumed a frame of at least 5 of the pending bytes |
| UnixServer.BodyRound | src/UmbralSocket.Net/Unix/UnixUmbralSocketServer.cs:129-236 | after a header declaring `len`, the round goes on only with a non-empty body of exactly `len` bytes that was fully read |
| UnixServer.Dispatch | src/UmbralSocket.Net/Unix/UnixUmbralSocketServer.cs:155-231 | a complete frame adds its length to the received counter and its response's length to the sent counter, and ends only if the sentinel send fails |
| UnixServer.SendAll | src/UmbralSocket.Net/Unix/UnixUmbralSocketServer.cs:180-185 | the send loop logs exactly the bytes `Transmit` says the peer takes, and fails exactly when a call throws before all are taken |
| UnixServer.SendRest | src/UmbralSocket.Net/Unix/UnixUmbralSocketServer.cs:183-184 | one send call of the unsent rest takes its part of the transfer, and the transfer goes on from what is left |
| UnixServer.UnixUmbralSocketServer.constructor | src/UmbralSocket.Net/Unix/UnixUmbralSocketServer.cs:22-36 | the server starts with no handlers and no active connections |
| UnixServer.UnixUmbralSocketServer.RegisterHandler | src/UmbralSocket.Net/Unix/UnixUmbralSocketServer.cs:43-44 | the opcode maps to the new handler, replacing any earlier one; every other opcode is unchanged |
| UnixServer.UnixUmbralSocketServer.ServeFrame | src/UmbralSocket.Net/Unix/UnixUmbralSocketServer.cs:115-241 | one iteration performs `UnixRound`: the bytes sent, the counters, the bytes consumed and the exit. Both buffers are back in the pool on every path, including the thrown ones |
| UnixServer.UnixUmbralSocketServer.ServeBody | src/UmbralSocket.Net/Unix/UnixUmbralSocketServer.cs:129-236 | the body half of an iteration performs `BodyRound`, and its buffer is released on every path |
| UnixServer.UnixUmbralSocketServer.DispatchFrame | src/UmbralSocket.Net/Unix/UnixUmbralSocketServer.cs:155-231 | counting the frame in, running the handler and sending the answer perform `Dispatch` |
| UnixServer.UnixUmbralSocketServer.SendAnswer | src/UmbralSocket.Net/Unix/UnixUmbralSocketServer.cs:158-231 | the response is sent, or the sentinel when there is no response or its send throws |
| UnixServer.UnixUmbralSocketServer.ProcessClient | src/UmbralSocket.Net/Unix/UnixUmbralSocketServer.cs:108-248 | the loop sends exactly what `UnixServe` says for the whole connection, adds its counts, ends for its reason, and leaves no buffer rented |
| UnixServer.UnixUmbralSocketServer.ProcessAndCleanupClient | src/UmbralSocket.Net/Unix/UnixUmbralSocketServer.cs:77-103 | the active-connection count returns to its value before the call, the counter event last reports that value, and the socket is disposed |
| UnixServer.RegisteredFrameIsAnswered | src/UmbralSocket.Net/Unix/UnixUmbralSocketServer.cs:158-185 | a registered opcode whose handler returns gets exactly `EncodeMessage(opcode, reply)`, and the loop goes on to the bytes after the frame |
| UnixServer.UnansweredFrameGetsSentinel | src/UmbralSocket.Net/Unix/UnixUmbralSocketServer.cs:211-231 | a frame with no usable response gets the sentinel, and the connection stays open exactly when that send succeeds |
| UnixServer.FailedResponseFallsBackToSentinel | src/UmbralSocket.Net/Unix/UnixUmbralSocketServer.cs:160-209 | when the response send throws part-way, the sentinel follows the bytes already taken; only a failing sentinel ends the connection |
| UnixServer.TruncatedFrameEndsQuietly | src/UmbralSocket.Net/Unix/UnixUmbralSocketServer.cs:120-137 | a peer that closes inside a header or body ends the loop normally, and nothing is sent or counted for that frame |
| UnixServer.EmptyFrameEndsConnection | src/UmbralSocket.Net/Unix/UnixUmbralSocketServer.cs:139 | a length of 0 makes the opcode read throw, which ends the connection without an answer |
| UnixServer.NegativeLengthEndsConnection | src/UmbralSocket.Net/Unix/UnixUmbralSocketServer.cs:126-129 | a length with the sign bit set cannot be rented, which ends the connection without an answer |
| UnixServer.RoundReadsDecodedFrame | src/UmbralSocket.Net/Unix/UnixUmbralSocketServer.cs:126-140 | a round that goes on has read exactly the frame `TryDecode` finds in the same bytes |
| UnixServer.GenerousRound | src/UmbralSocket.Net/Unix/UnixUmbralSocketServer.cs:139-236 | with a peer that takes each frame in one call, a request's round sends exactly its answer |
| UnixServer.ServesRequestsInOrder | src/UmbralSocket.Net/Unix/UnixUmbralSocketServer.cs:108-248 | requests sent back to back get their answers in order, and the loop ends when the client closes |
| NamedPipeServer.PipeRound | src/UmbralSocket.Net/Windows/NamedPipeUmbralSocketServer.cs:104-203 | a round that goes on has consumed a frame of at least 5 bytes and leaves no buffer rented |
| NamedPipeServer.BodyRound | src/UmbralSocket.Net/Windows/NamedPipeUmbralSocketServer.cs:115-203 | the round goes on only with a non-empty body of exactly `len` bytes that was fully read; a round leaves no buffer or both rented |
| NamedPipeServer.Dispatch | src/UmbralSocket.Net/Windows/NamedPipeUmbralSocketServer.cs:138-203 | a complete frame counts its length as received; the round either goes on with both buffers released, or breaks with both still rented |
| NamedPipeServer.NamedPipeUmbralSocketServer.constructor | src/UmbralSocket.Net/Windows/NamedPipeUmbralSocketServer.cs:20-33 | the server starts with no handlers and no active connections |
| NamedPipeServer.NamedPipeUmbralSocketServer.RegisterHandler | src/UmbralSocket.Net/Windows/NamedPipeUmbralSocketServer.cs:40-41 | the opcode maps to the new handler, replacing any earlier one; every other opcode is unchanged |
| NamedPipeServer.NamedPipeUmbralSocketServer.ServeFrame | src/UmbralSocket.Net/Windows/NamedPipeUmbralSocketServer.cs:106-203 | one iteration performs `PipeRound`: bytes written, counters, bytes consumed, exit, and the number of buffers left rented. A round that goes on leaves the pipe connected with everything flushed |
| NamedPipeServer.NamedPipeUmbralSocketServer.ServeBody | src/UmbralSocket.Net/Windows/NamedPipeUmbralSocketServer.cs:115-203 | the body half performs `BodyRound`. Both buffers are released when the body cannot be read and when the round goes on, and on no other path |
| NamedPipeServer.NamedPipeUmbralSocketServer.FinishRound | src/UmbralSocket.Net/Windows/NamedPipeUmbralSocketServer.cs:141-203 | after dispatch, both buffers are released iff the answer went out |
| NamedPipeServer.NamedPipeUmbralSocketServer.DispatchFrame | src/UmbralSocket.Net/Windows/NamedPipeUmbralSocketServer.cs:138-200 | counting, running the handler, and writing and flushing the response or the sentinel perform `Dispatch` |
| NamedPipeServer.NamedPipeUmbralSocketServer.ProcessClient | src/UmbralSocket.Net/Windows/NamedPipeUmbralSocketServer.cs:99-211 | the loop runs while the pipe is connected and writes exactly what `PipeServe` says, with its counts, its exit and the buffers it leaves rented |
| NamedPipeServer.NamedPipeUmbralSocketServer.ProcessAndCleanupClient | src/UmbralSocket.Net/Windows/NamedPipeUmbralSocketServer.cs:70-96 | the active-connection count returns to its value before the call, the counter event last reports that value, and the pipe is disposed |
| NamedPipeServer.RegisteredFrameIsAnswered | src/UmbralSocket.Net/Windows/NamedPipeUmbralSocketServer.cs:141-164 | a registered opcode whose handler returns gets exactly `EncodeMessage(opcode, reply)`, and the loop goes on with both buffers released |
| NamedPipeServer.UnansweredFrameGetsSentinel | src/UmbralSocket.Net/Windows/NamedPipeUmbralSocketServer.cs:185-200 | a frame with no usable response gets the sentinel. The loop goes on when that write succeeds, and otherwise breaks with both buffers rented |
| NamedPipeServer.FailedWriteBreaksLoop | src/UmbralSocket.Net/Windows/NamedPipeUmbralSocketServer.cs:165-183 | the model treats every failed write as a broken pipe (see "## Left out"). Under that assumption a response write that throws makes the sentinel write fail too, and the loop breaks with both buffers rented |
| NamedPipeServer.TruncatedFrameEndsQuietly | src/UmbralSocket.Net/Windows/NamedPipeUmbralSocketServer.cs:108-123 | a pipe closed inside a header or body ends the loop with nothing written and every buffer acquired so far released |
| NamedPipeServer.EmptyFrameLeaksBothBuffers | src/UmbralSocket.Net/Windows/NamedPipeUmbralSocketServer.cs:124 | a length of 0 makes the opcode read throw past both releases: two buffers stay rented |
| NamedPipeServer.NegativeLengthLeaksHeader | src/UmbralSocket.Net/Windows/NamedPipeUmbralSocketServer.cs:114-115 | a length with the sign bit set makes the rent throw, and the header's buffer stays rented |
| NamedPipeServer.GenerousRound | src/UmbralSocket.Net/Windows/NamedPipeUmbralSocketServer.cs:124-203 | with a peer that takes each frame in one write, a request's round writes exactly its answer and leaves nothing rented |
| NamedPipeServer.ServesRequestsInOrder | src/UmbralSocket.Net/Windows/NamedPipeUmbralSocketServer.cs:99-211 | requests sent back to back get their answers in order. The loop ends when the client closes, and no buffer is left rented |
| UnixClient.ParseReply | src/UmbralSocket.Net/Unix/UnixUmbralSocketClient.cs:42-54 | the client succeeds iff the reply decodes as a frame under the request's opcode whose length fits in an array, and then returns that frame's payload. Each failure has its own error: closed, negative length, too large, empty body, opcode mismatch |
| UnixClient.OneSend | src/UmbralSocket.Net/Unix/UnixUmbralSocketClient.cs:40 | one send call takes at most the whole request |
| UnixClient.SendAsync | src/UmbralSocket.Net/Unix/UnixUmbralSocketClient.cs:34-55 | each call opens its own connection. It puts on the wire exactly the prefix of `EncodeMessage(opcode, payload)` that one send call hands over, and its result is `Exchange` of that connection |
| UnixClient.Converse | src/UmbralSocket.Net/Unix/UnixUmbralSocketClient.cs:39-54 | a request too large to frame fails before anything is sent. A failing send call fails the request, and otherwise the reply decides |
| UnixClient.ReadReply | src/UmbralSocket.Net/Unix/UnixUmbralSocketClient.cs:42-54 | reading the length, the body and the opcode yields `ParseReply` of the pending bytes and sends nothing |
| UnixClient.ReplyRoundTrip | src/UmbralSocket.Net/Unix/UnixUmbralSocketClient.cs:49-54 | an answer framed by the codec under the request's opcode comes back as its payload |
| UnixClient.SentinelReadsAsEmpty | src/UmbralSocket.Net/Unix/UnixUmbralSocketClient.cs:52-54 | the server's sentinel comes back as a successful empty answer |
| UnixClient.ZeroLengthIsEmptyBody | src/UmbralSocket.Net/Unix/UnixUmbralSocketClient.cs:45-49 | a length of 0 fails at the opcode read, not as a closed connection |
| UnixClient.OtherOpcodeIsMismatch | src/UmbralSocket.Net/Unix/UnixUmbralSocketClient.cs:49-51 | an answer under another opcode is refused as a mismatch naming that opcode |
| UnixClient.TruncatedReplyIsClosed | src/UmbralSocket.Net/Unix/UnixUmbralSocketClient.cs:43-48 | a reply cut short anywhere fails as a closed connection |
| UnixClient.RequestGetsHandlerReply | src/UmbralSocket.Net/Unix/UnixUmbralSocketClient.cs:34-55 | against the Unix server's loop, a request comes back as the handler's reply, or as an empty answer when the server sent the sentinel |
| NamedPipeClient.ParseResponse | src/UmbralSocket.Net/Windows/NamedPipeUmbralSocketClient.cs:61-94 | the client succeeds iff the answer decodes as a frame under the request's opcode that fits in an array, and then returns its payload. Only a length field of 0 is a server error; the other failures are closed-while-reading, negative, too large and mismatch |
| NamedPipeClient.FrameLength | src/UmbralSocket.Net/Windows/NamedPipeUmbralSocketClient.cs:122-125 | the chunked header's length is 1 + the payload length modulo 2^32, which is the true length whenever it fits |
| NamedPipeClient.Header | src/UmbralSocket.Net/Windows/NamedPipeUmbralSocketClient.cs:122-126 | the chunked send's header has five bytes |
| NamedPipeClient.WriteChunks | src/UmbralSocket.Net/Windows/NamedPipeUmbralSocketClient.cs:128-131 | writing chunks one write each puts a prefix of their concatenation on the wire, and all of it when every write succeeds |
| NamedPipeClient.ChunkedFrameIsEncoded | src/UmbralSocket.Net/Windows/NamedPipeUmbralSocketClient.cs:122-131 | the header followed by the segments is exactly `EncodeMessage(opcode, concatenation of the segments)` |
| NamedPipeClient.ResponseExtent | src/UmbralSocket.Net/Windows/NamedPipeUmbralSocketClient.cs:61-91 | the answer takes 4 bytes when the client stops at the length, 4 + len when it reads the body, and no count when a read runs out of bytes; the count never exceeds what is pending |
| NamedPipeClient.AfterResponse | src/UmbralSocket.Net/Windows/NamedPipeUmbralSocketClient.cs:61-91 | what is left after one answer is a suffix of the pending bytes, the script is unchanged, and a disconnected pipe stays disconnected |
| NamedPipeClient.AfterExchange | src/UmbralSocket.Net/Windows/NamedPipeUmbralSocketClient.cs:54-91 | what is left after one request is a suffix of the pending bytes; after a successful answer the pipe is connected and exactly the 5 + payload bytes of the answer frame were consumed |
| NamedPipeClient.AnswerLeavesTheRest | src/UmbralSocket.Net/Windows/NamedPipeUmbralSocketClient.cs:54-94 | with answers queued back to back, a request whose write succeeds gets the first answer's payload and leaves the pipe connected with the next answer first in line |
| NamedPipeClient.NamedPipeUmbralSocketClient.constructor | src/UmbralSocket.Net/Windows/NamedPipeUmbralSocketClient.cs:21-33 | a new client has an empty connection slot and a live semaphore |
| NamedPipeClient.NamedPipeUmbralSocketClient.EnsureConnected | src/UmbralSocket.Net/Windows/NamedPipeUmbralSocketClient.cs:143-160 | a connected pipe in the slot is kept untouched. After `DisposeAsync` the call fails and changes nothing. Otherwise the old pipe is disposed and a fresh connected pipe takes the slot |
| NamedPipeClient.NamedPipeUmbralSocketClient.SendAsync | src/UmbralSocket.Net/Windows/NamedPipeUmbralSocketClient.cs:41-106 | after `DisposeAsync` the call fails with nothing recorded. Otherwise the result is `Exchange` on the reused or new pipe, and the pipe is left as `AfterExchange` says: the bytes still to be read, the peer's remaining script, and connected or not. The request `EncodeMessage(opcode, payload)` is written whole and flushed whenever its write succeeds. Every pooled buffer is back in the pool, and exactly one latency sample is recorded |
| NamedPipeClient.NamedPipeUmbralSocketClient.Request | src/UmbralSocket.Net/Windows/NamedPipeUmbralSocketClient.cs:54-99 | the `try` block yields `Exchange` and leaves the pipe as `AfterExchange` says. It writes the prefix of `EncodeMessage(opcode, payload)` that the peer accepts, all of it and flushed when the write succeeds, and nothing for a payload too large to frame. It leaves no buffer rented |
| NamedPipeClient.NamedPipeUmbralSocketClient.ReadResponse | src/UmbralSocket.Net/Windows/NamedPipeUmbralSocketClient.cs:61-99 | reading the answer yields `ParseResponse` of the pending bytes. It consumes 4 bytes when it stops at the length and 4 + len when it reads the body; when a read hits the end of the stream nothing is left and the pipe is disconnected (`AfterResponse`). It writes nothing and leaves no buffer rented |
| NamedPipeClient.NamedPipeUmbralSocketClient.ReadBody | src/UmbralSocket.Net/Windows/NamedPipeUmbralSocketClient.cs:77-99 | the body is closed-while-reading, a mismatch, or the bytes after the opcode. With fewer than len bytes pending nothing is left and the pipe is disconnected; otherwise exactly len bytes are consumed and the connection is kept. The header's buffer and then the body's are released |
| NamedPipeClient.NamedPipeUmbralSocketClient.SendSegments | src/UmbralSocket.Net/Windows/NamedPipeUmbralSocketClient.cs:109-138 | after `DisposeAsync` the call fails. Otherwise the wire gets the header and then the segments as `WriteChunks` says, and exactly `EncodeMessage(opcode, concatenation)` on success. The pipe is connected afterwards iff every write succeeded, the peer's script is what the writes left, and its input is untouched. Nothing is read, and the header buffer is released |
| NamedPipeClient.NamedPipeUmbralSocketClient.WriteFrame | src/UmbralSocket.Net/Windows/NamedPipeUmbralSocketClient.cs:119-137 | the header is built in a pooled buffer and written, then the segments, as `WriteChunks` says. Success means every write succeeded and all was flushed; a failure flushes nothing and disconnects. The input is untouched and the buffer goes back |
| NamedPipeClient.NamedPipeUmbralSocketClient.WriteChunked | src/UmbralSocket.Net/Windows/NamedPipeUmbralSocketClient.cs:128-132 | the header's write and then the segments' writes perform `WriteChunks` of the header and the segments: the bytes sent, the script left and the connection state are its result, and the input is untouched |
| NamedPipeClient.NamedPipeUmbralSocketClient.WriteSegments | src/UmbralSocket.Net/Windows/NamedPipeUmbralSocketClient.cs:129-132 | the `foreach` writes the segments in order and stops at the first failing write, which disconnects the pipe; when all succeed it flushes. Bytes sent, script left and connection state are those of `WriteChunks`, and the input is untouched |
| NamedPipeClient.NamedPipeUmbralSocketClient.DisposeAsync | src/UmbralSocket.Net/Windows/NamedPipeUmbralSocketClient.cs:184-199 | the first call disposes the pipe, empties the slot and disposes the semaphore; a second call fails and changes nothing |
| NamedPipeClient.ResponseRoundTrip | src/UmbralSocket.Net/Windows/NamedPipeUmbralSocketClient.cs:85-94 | an answer framed by the codec under the request's opcode comes back as its payload |
| NamedPipeClient.SentinelReadsAsEmpty | src/UmbralSocket.Net/Windows/NamedPipeUmbralSocketClient.cs:72-91 | the server's length-1 sentinel passes the length-0 check and comes back as an empty answer |
| NamedPipeClient.ZeroLengthIsServerError | src/UmbralSocket.Net/Windows/NamedPipeUmbralSocketClient.cs:72-75 | only a length field of 0 is reported as a server error |
| NamedPipeClient.OtherOpcodeIsMismatch | src/UmbralSocket.Net/Windows/NamedPipeUmbralSocketClient.cs:85-89 | an answer under another opcode is refused, naming both opcodes |
| NamedPipeClient.TruncatedResponseIsClosed | src/UmbralSocket.Net/Windows/NamedPipeUmbralSocketClient.cs:64-83 | an answer cut short fails as closed while reading the length, or while reading the payload |
| NamedPipeClient.RequestGetsHandlerReply | src/UmbralSocket.Net/Windows/NamedPipeUmbralSocketClient.cs:41-106 | against the named-pipe server's loop, a request comes back as the handler's reply, or as an empty answer when the server wrote the sentinel |
| Diagnostics.Slide | src/Diagnostics/UmbralSocketEventSource.cs:58-66 | the window holds min(count+1, 1000) samples with the new one last, and the survivors are the newest old samples in their order |
| Diagnostics.FullWindowRecomputes | src/Diagnostics/UmbralSocketEventSource.cs:63-72 | once the window is full, every further sample leaves a count of 1000, a multiple of 100 |
| Diagnostics.Insert | src/Diagnostics/UmbralSocketEventSource.cs:80 | inserting into a sorted sequence keeps it sorted and adds exactly that sample |
| Diagnostics.SortAscending | src/Diagnostics/UmbralSocketEventSource.cs:80 | the sorted copy is ascending and a permutation of the window |
| Diagnostics.SumSortAscending | src/Diagnostics/UmbralSocketEventSource.cs:80-82 | sorting leaves the sum unchanged, so the mean over the sorted copy is the window's mean |
| Diagnostics.RankFloor | src/Diagnostics/UmbralSocketEventSource.cs:93-94 | the lower index is the floor of p·(n−1), a valid index, and below the last one whenever the rank is fractional |
| Diagnostics.InterpolationBetween | src/Diagnostics/UmbralSocketEventSource.cs:99-100 | the weighted average of two samples lies between them |
| Diagnostics.GetPercentile | src/Diagnostics/UmbralSocketEventSource.cs:88-101 | 0 for no samples, and the sample for one. Otherwise the sample at an integral rank, or the linear interpolation `s[lo] + (rank - lo)·(s[lo+1] - s[lo])` at a fractional rank, which lies between the two samples |
| Diagnostics.RankMonotone | src/Diagnostics/UmbralSocketEventSource.cs:93-94 | a higher percentile has a rank, and a lower index, at least as high |
| Diagnostics.PercentileInCell | src/Diagnostics/UmbralSocketEventSource.cs:93-100 | on sorted samples a percentile lies between the samples at its lower index and the next one; it is the lower sample at an integral rank and the interpolation along the cell otherwise |
| Diagnostics.InterpolateMonotone | src/Diagnostics/UmbralSocketEventSource.cs:99-100 | moving further towards a larger sample never lowers the interpolated value |
| Diagnostics.PercentileMonotone | src/Diagnostics/UmbralSocketEventSource.cs:88-101 | on sorted samples the percentile never decreases as p grows |
| Diagnostics.PercentileWithinSamples | src/Diagnostics/UmbralSocketEventSource.cs:88-101 | on sorted samples every percentile lies between the smallest and the largest |
| Diagnostics.PercentilesOfOneToTen | src/Diagnostics/UmbralSocketEventSource.cs:93-100 | on 1..10 the 50th, 95th and 99th percentiles are 5.5, 9.55 and 9.91 |
| Diagnostics.SortedExtremes | src/Diagnostics/UmbralSocketEventSource.cs:80 | the sorted copy starts with a sample no larger than any, and ends with one no smaller than any |
| Diagnostics.SummaryPercentilesOrdered | src/Diagnostics/UmbralSocketEventSource.cs:77-85 | the recomputed statistics satisfy p50 <= p95 <= p99 |
| Diagnostics.SummaryMeaning | src/Diagnostics/UmbralSocketEventSource.cs:77-85 | the mean is the window's sum over its count, and each percentile lies among the samples |
| Diagnostics.UmbralSocketEventSource.constructor | src/Diagnostics/UmbralSocketEventSource.cs:24-49 | counters start at 0, the window empty and the statistics 0 |
| Diagnostics.UmbralSocketEventSource.ConnectionChanged | src/Diagnostics/UmbralSocketEventSource.cs:52 | the connection count is overwritten with the reported value |
| Diagnostics.UmbralSocketEventSource.BytesSent | src/Diagnostics/UmbralSocketEventSource.cs:53 | the bytes-sent total grows by the value |
| Diagnostics.UmbralSocketEventSource.BytesReceived | src/Diagnostics/UmbralSocketEventSource.cs:54 | the bytes-received total grows by the value |
| Diagnostics.UmbralSocketEventSource.RecordLatency | src/Diagnostics/UmbralSocketEventSource.cs:58-73 | the window slides by the sample. The statistics are recomputed from the new window exactly when its count is a multiple of 100, and are kept otherwise |
| Diagnostics.UmbralSocketEventSource.UpdateLatencyPercentiles | src/Diagnostics/UmbralSocketEventSource.cs:75-86 | the window is left as it is; an empty window keeps the statistics, and any other gets its summary over a sorted copy |

## Left out

- Cancellation tokens, the accept loops, `Task.Run`, `Interlocked` and the connection semaphore's mutual exclusion: each connection and each client call is modelled as one sequential run. The Unix loop runs until a round ends it. The pipe loop runs while the pipe reports itself connected.
- Socket and pipe construction, `Bind`/`Listen`/`Connect`, and the deletion of a stale socket file. A connection is the stream's scripts. A failing connect is not modelled: the connect step always succeeds.
- `ActivitySource` tags, `ILogger` calls and the EventSource counter registration: they do not change the bytes produced.
- `Stopwatch` timing: the elapsed time is the `latencyMs` parameter of `NamedPipeClient.NamedPipeUmbralSocketClient.SendAsync`.
- Diagnostics.UmbralSocketEventSource.RecordLatency: samples, sums and percentiles are exact reals, not IEEE doubles.
- `SendQueueLength`, `ReceiveQueueLength` and `LatencyStats` on the event source: plain setters that nothing in the core calls.
- Diagnostics.UmbralSocketEventSource.BytesSent: the counters are unbounded integers; `long` overflow is not modelled.
- Transport.ArrayPool.Rent: `ArrayPool<byte>.Shared` is a foreign library. The model pool reuses the last returned array when it is long enough and otherwise allocates. Its bucket sizes and trimming are not modelled.
- Channel.Stream.Flush: a flush never fails in the model. Only writes break a pipe.
- Channel.Stream.Write: every failed pipe write is treated as a broken pipe, and every later write fails at once. .NET marks a pipe broken only for broken-pipe errors, so a sentinel write after another kind of failure could still succeed. `NamedPipeServer.FailedWriteBreaksLoop` holds under this assumption only.
- SequenceExtensions.ToArray: a sequence longer than `Array.MaxLength` is not modelled. The source's allocation throws for it, but the model returns the concatenation of any length.
- Handlers.Response: a handler is a function from payload to `Returns(bytes)` or `Throws`. A handler returning null is `Returns([])`, because framing turns a null array into an empty payload. With an activity source configured, the tag `responsePayload.Length` throws for a null reply inside the `try`, so that handler counts as `Throws`. Asynchrony and side effects of handlers are not modelled.
- Channel.Stream.Receive: reads never fail with an error; only a read of 0 bytes ends a connection. In the named-pipe server a read that throws leaves through the outer `catch` (src/UmbralSocket.Net/Windows/NamedPipeUmbralSocketServer.cs:205-209) without releasing the buffers rented in that round. The `leaked` count of `PipeRound` does not cover that path.
- UmbralProtocol.TryDecode: it works on one contiguous byte sequence. Segment boundaries of a `ReadOnlySequence` do not change its result.
- UnixClient.SendAsync: the request goes to one send call whose count is ignored, as in the code. What the peer does with a partial request is left to the peer's script.
- src/Security/UnixSocketPathHelper.cs and src/Security/NamedPipeSecurityHelper.cs: file-system permissions and Windows ACLs are platform calls.
- `IpcClient`, `IpcServer`, `IpcOptions`, the interfaces, `UmbralSocketOptions`, `UmbralMessage` and `UmbralSocketException` are declarations without behaviour. `UmbralProtocol.Frame` plays `UmbralMessage`'s role, and each exception is an error value.
