/**
 * The Umbral wire frame: `| length: u32 big-endian | opcode: u8 | payload |`, where the
 * length counts the opcode and the payload. EncodeMessage builds a frame, TryDecode parses
 * one back out of the bytes buffered so far.
 */
module UmbralProtocol {
  import opened Bytes

  /** One message: an opcode and its payload (the library's UmbralMessage). */
  datatype Frame = Frame(opcode: byte, payload: seq<byte>)

  /**
   * The three outcomes of TryDecode: a frame, the `(false, 0, default)` answer, and the
   * ArgumentOutOfRangeException that `Slice` throws when its count is negative or runs past
   * the end of the input.
   */
  datatype DecodeResult = Decoded(frame: Frame) | Incomplete | SliceOutOfRange

  /** The output array of EncodeMessage (5 + |payload| bytes) is one the runtime can allocate. */
  predicate Encodable(payload: seq<byte>)
  {
    5 + |payload| <= MaxArrayLength
  }

  function EncodeMessage(opcode: byte, payload: seq<byte>): (r: seq<byte>)
    requires Encodable(payload)
    ensures |r| == 5 + |payload|
    ensures U32BE(r[..4]) == 1 + |payload| && Int32(U32BE(r[..4])) == 1 + |payload|
    ensures r[4] == opcode && r[5..] == payload
  {
    U32OfBE32(1 + |payload|);
    BE32(1 + |payload|) + [opcode] + payload
  }

  /** The frame a server sends back for an unknown opcode or a failed handler: `[0,0,0,1,opcode]`. */
  function Sentinel(opcode: byte): (r: seq<byte>)
    ensures r == [0, 0, 0, 1, opcode]
  {
    EncodeMessage(opcode, [])
  }

  /** The length header of `input` as the readers hold it: a signed 32-bit integer. */
  function DeclaredLength(input: seq<byte>): int
    requires |input| >= 4
  {
    Int32(U32BE(input[..4]))
  }

  /** The smallest signed length, `int.MinValue`: its `len - 1` wraps to `int.MaxValue`. */
  const MinLength: int := -0x8000_0000

  /** The count `len - 1` handed to `Slice`, computed in unchecked 32-bit arithmetic. */
  function SliceCount(len: int): (c: int)
    requires MinLength <= len < 0x8000_0000
    ensures len != MinLength ==> c == len - 1
    ensures len == MinLength ==> c == 0x7FFF_FFFF
  {
    Int32((len - 1) % 0x1_0000_0000)
  }

  /**
   * TryDecode reads the header as a signed length `len` and decodes when `4 + len` bytes are
   * there and `Slice(5, len - 1)` fits. For `len == int.MinValue` the first check passes for
   * any input and the count wraps to `int.MaxValue`, so such a header decodes a payload of
   * 2^31 - 1 bytes once that many are present.
   */
  function TryDecode(input: seq<byte>): (r: DecodeResult)
    ensures r.Decoded? <==>
              |input| >= 5 && ((1 <= DeclaredLength(input) && 4 + DeclaredLength(input) <= |input|)
                               || (DeclaredLength(input) == MinLength && 0x8000_0004 <= |input|))
    ensures r.Decoded? && DeclaredLength(input) >= 1 ==>
              r.frame == Frame(input[4], input[5..4 + DeclaredLength(input)])
    ensures r.Decoded? && DeclaredLength(input) < 1 ==>
              r.frame == Frame(input[4], input[5..0x8000_0004])
    ensures r.SliceOutOfRange? <==>
              |input| >= 5 && DeclaredLength(input) <= 0
              && !(DeclaredLength(input) == MinLength && 0x8000_0004 <= |input|)
    ensures |input| < 5 ==> r.Incomplete?
  {
    if |input| < 5 then Incomplete
    else
      var len := DeclaredLength(input);
      if |input| < 4 + len then Incomplete
      else
        var count := SliceCount(len);
        if count < 0 || |input| < 5 + count then SliceOutOfRange
        else Decoded(Frame(input[4], input[5..5 + count]))
  }

  /** Decoding an encoded frame gives back its opcode and payload, whatever bytes follow it. */
  lemma RoundTrip(opcode: byte, payload: seq<byte>, rest: seq<byte>)
    requires Encodable(payload)
    ensures TryDecode(EncodeMessage(opcode, payload) + rest) == Decoded(Frame(opcode, payload))
  {
    var e := EncodeMessage(opcode, payload);
    var input := e + rest;
    assert input[..4] == e[..4];
    assert input[4] == opcode;
    assert input[5..4 + DeclaredLength(input)] == payload by {
      assert input[5..5 + |payload|] == e[5..];
    }
  }

  /** The header, opcode and payload of an encoded frame, read back from the front of a stream. */
  lemma EncodedFields(opcode: byte, payload: seq<byte>, rest: seq<byte>)
    requires Encodable(payload)
    ensures var input := EncodeMessage(opcode, payload) + rest;
            |input| >= 5 + |payload| && DeclaredLength(input) == 1 + |payload|
            && input[4] == opcode && input[5..5 + |payload|] == payload
            && input[4..][1..1 + |payload|] == payload && input[4..][0] == opcode
            && input[4..][1 + |payload|..] == rest && input[5 + |payload|..] == rest
  {
    var e := EncodeMessage(opcode, payload);
    var input := e + rest;
    assert input[..4] == e[..4];
    assert input[5..5 + |payload|] == e[5..];
    assert input[4..][1..1 + |payload|] == input[5..5 + |payload|];
  }

  /**
   * What TryDecode accepts, read through the unsigned header `n`: exactly the frames with
   * 1 <= n <= 2^31 whose 4 + n bytes are present. The one unsigned value above the signed range
   * that still decodes is 2^31, the `int.MinValue` wrap.
   */
  lemma {:induction false} DecodedReadsUnsigned(input: seq<byte>)
    requires |input| >= 4
    ensures var n := U32BE(input[..4]);
            TryDecode(input).Decoded? <==> |input| >= 5 && 1 <= n <= 0x8000_0000 && 4 + n <= |input|
    ensures TryDecode(input).Decoded? ==>
              TryDecode(input).frame.payload == input[5..4 + U32BE(input[..4])]
  {
    var n := U32BE(input[..4]);
    var len := DeclaredLength(input);
    assert len % 0x1_0000_0000 == n;
    if len >= 0 {
      assert len == n;
    } else {
      assert len == n as int - 0x1_0000_0000;
    }
  }

  /** Conversely, a decoded frame is exactly the header, opcode and payload at the front of the input. */
  lemma {:induction false} DecodedIsFramed(input: seq<byte>)
    requires TryDecode(input).Decoded?
    ensures var f := TryDecode(input).frame;
            |f.payload| + 5 <= |input| &&
            input[..5 + |f.payload|] == BE32(1 + |f.payload|) + [f.opcode] + f.payload &&
            (Encodable(f.payload) ==> input[..5 + |f.payload|] == EncodeMessage(f.opcode, f.payload))
  {
    var f := TryDecode(input).frame;
    DecodedReadsUnsigned(input);
    var n := U32BE(input[..4]);
    assert n == 1 + |f.payload|;
    BE32OfU32(input[..4]);
    assert input[..5 + |f.payload|] == input[..4] + [input[4]] + input[5..4 + n];
  }

  /** Bytes after a complete frame do not change what it decodes to. */
  lemma {:induction false} DecodeIgnoresTrailing(input: seq<byte>, extra: seq<byte>)
    requires TryDecode(input).Decoded?
    ensures TryDecode(input + extra) == TryDecode(input)
  {
    assert (input + extra)[..4] == input[..4];
    DecodedReadsUnsigned(input);
    DecodedReadsUnsigned(input + extra);
    var n := U32BE(input[..4]);
    assert (input + extra)[5..4 + n] == input[5..4 + n];
  }

  /**
   * A declared length of 0, or one with the sign bit set, never decodes to a frame, except the
   * header `[0x80, 0, 0, 0]` on an input of at least 2^31 + 4 bytes.
   */
  lemma {:induction false} NonPositiveLengthNeverDecodes(input: seq<byte>)
    requires |input| >= 5 && (input[0] >= 0x80 || input[..4] == [0, 0, 0, 0])
    requires input[..4] != [0x80, 0, 0, 0] || |input| < 0x8000_0004
    ensures TryDecode(input) == SliceOutOfRange
  {
    DecodedReadsUnsigned(input);
    if input[0] >= 0x80 {
      SignBitIsNegative(input[..4]);
      if U32BE(input[..4]) == 0x8000_0000 {
        BE32OfU32(input[..4]);
      }
    }
  }

  /**
   * The header `[0x80, 0, 0, 0]` reads as `int.MinValue`: the completeness check passes, the
   * slice count wraps to `int.MaxValue`, and on a long enough input a frame of 2^31 - 1 payload
   * bytes is decoded although the declared length is negative.
   */
  lemma {:induction false} MinLengthWrapsToLargestSlice(input: seq<byte>)
    requires |input| >= 0x8000_0004 && input[..4] == [0x80, 0, 0, 0]
    ensures DeclaredLength(input) < 0
    ensures TryDecode(input) == Decoded(Frame(input[4], input[5..0x8000_0004]))
    ensures |TryDecode(input).frame.payload| == 0x7FFF_FFFF
  {
    assert U32BE(input[..4]) == 0x8000_0000;
  }

  /** A truncated frame (fewer than `length` bytes after the header) decodes as incomplete. */
  lemma TruncatedFrameIsIncomplete(opcode: byte, payload: seq<byte>, k: nat)
    requires Encodable(payload) && 5 <= k < 5 + |payload|
    ensures TryDecode(EncodeMessage(opcode, payload)[..k]) == Incomplete
  {
    var e := EncodeMessage(opcode, payload);
    assert e[..k][..4] == e[..4];
  }
}
