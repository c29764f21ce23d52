/**
 * Bytes and the 4-byte big-endian length header of the wire format, together with the
 * reinterpretation of that unsigned header as a signed 32-bit integer, which is how every
 * reader of the header in the library stores it (`(int)ReadUInt32BigEndian(...)` or
 * `TryReadBigEndian(out int)`).
 */
module Bytes {

  newtype byte = x: int | 0 <= x < 0x100

  /** The largest byte array the .NET runtime allocates (Array.MaxLength). */
  const MaxArrayLength: nat := 0x7FFF_FFC7

  /** The four bytes of `n`, most significant first. */
  function BE32(n: nat): (r: seq<byte>)
    requires n < 0x1_0000_0000
    ensures |r| == 4
  {
    [(n / 0x100_0000) as byte, (n / 0x1_0000 % 0x100) as byte,
     (n / 0x100 % 0x100) as byte, (n % 0x100) as byte]
  }

  /** The unsigned value of four bytes read most significant first. */
  function U32BE(b: seq<byte>): (n: nat)
    requires |b| == 4
    ensures n < 0x1_0000_0000
  {
    b[0] as nat * 0x100_0000 + b[1] as nat * 0x1_0000 + b[2] as nat * 0x100 + b[3] as nat
  }

  /** The C# cast `(int)u` of a 32-bit unsigned value: the same bits read in two's complement. */
  function Int32(u: nat): (i: int)
    requires u < 0x1_0000_0000
    ensures -0x8000_0000 <= i < 0x8000_0000
    ensures i % 0x1_0000_0000 == u
    ensures i < 0 <==> u >= 0x8000_0000
  {
    if u < 0x8000_0000 then u else u - 0x1_0000_0000
  }

  lemma U32OfBE32(n: nat)
    requires n < 0x1_0000_0000
    ensures U32BE(BE32(n)) == n
  {
    var b := BE32(n);
    assert n == (n / 0x100_0000) * 0x100_0000 + (n / 0x1_0000 % 0x100) * 0x1_0000
              + (n / 0x100 % 0x100) * 0x100 + n % 0x100;
  }

  lemma BE32OfU32(b: seq<byte>)
    requires |b| == 4
    ensures BE32(U32BE(b)) == b
  {
    var n := U32BE(b);
    assert n / 0x100_0000 == b[0] as int;
    assert n / 0x1_0000 == b[0] as int * 0x100 + b[1] as int;
    assert n / 0x100 == b[0] as int * 0x1_0000 + b[1] as int * 0x100 + b[2] as int;
  }

  /** A header whose first byte has its top bit set reads as a negative length. */
  lemma SignBitIsNegative(b: seq<byte>)
    requires |b| == 4 && b[0] >= 0x80
    ensures Int32(U32BE(b)) < 0
  {
  }

  /** A log extended by the next `k` bytes after the first `total` holds the first `total + k`. */
  lemma LogExtends(log: seq<byte>, bytes: seq<byte>, total: nat, k: nat)
    requires total + k <= |bytes|
    ensures (log + bytes[..total]) + bytes[total..][..k] == log + bytes[..total + k]
  {
    assert bytes[..total] + bytes[total..][..k] == bytes[..total + k];
  }

  /** Appending to a byte log in two steps or in one gives the same log. */
  lemma AppendAssociates(a: seq<byte>, b: seq<byte>, c: seq<byte>)
    ensures (a + b) + c == a + (b + c)
  {
  }
}
