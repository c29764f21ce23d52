/**
 * A multi-segment byte sequence (ReadOnlySequence<byte>) as the list of its segments, and
 * its conversion to one contiguous array.
 */
module SequenceExtensions {
  import opened Bytes

  /** The total number of bytes in the sequence (its `Length`). */
  function TotalLength(segments: seq<seq<byte>>): nat
  {
    if segments == [] then 0 else |segments[0]| + TotalLength(segments[1..])
  }

  /** The segments one after the other: what `CopyTo` writes into the destination. */
  function Concat(segments: seq<seq<byte>>): seq<byte>
  {
    if segments == [] then [] else segments[0] + Concat(segments[1..])
  }

  /** Where segment `i` starts in the flattened sequence. */
  function Offset(segments: seq<seq<byte>>, i: nat): nat
    requires i <= |segments|
  {
    TotalLength(segments[..i])
  }

  lemma {:induction false} ConcatLength(segments: seq<seq<byte>>)
    ensures |Concat(segments)| == TotalLength(segments)
  {
    if segments != [] {
      ConcatLength(segments[1..]);
    }
  }

  lemma {:induction false} ConcatAppend(segments: seq<seq<byte>>, s: seq<byte>)
    ensures Concat(segments + [s]) == Concat(segments) + s
    ensures TotalLength(segments + [s]) == TotalLength(segments) + |s|
  {
    if segments == [] {
      assert [s][1..] == [];
    } else {
      assert (segments + [s])[1..] == segments[1..] + [s];
      ConcatAppend(segments[1..], s);
    }
  }

  /** Segment `i` ends no later than the flattened sequence does. */
  lemma {:induction false} OffsetBound(segments: seq<seq<byte>>, i: nat)
    requires i < |segments|
    ensures Offset(segments, i) + |segments[i]| <= TotalLength(segments)
  {
    if i == 0 {
      assert segments[..0] == [];
    } else {
      assert segments[..i][1..] == segments[1..][..i - 1];
      OffsetBound(segments[1..], i - 1);
    }
  }

  /** Byte `j` of segment `i` lands at `Offset(segments, i) + j` of the flattened sequence. */
  lemma {:induction false} ConcatAt(segments: seq<seq<byte>>, i: nat, j: nat)
    requires i < |segments| && j < |segments[i]|
    ensures Offset(segments, i) + j < |Concat(segments)|
    ensures Concat(segments)[Offset(segments, i) + j] == segments[i][j]
  {
    ConcatLength(segments);
    ConcatLength(segments[1..]);
    if i == 0 {
      assert segments[..0] == [];
    } else {
      assert segments[..i][1..] == segments[1..][..i - 1];
      ConcatAt(segments[1..], i - 1, j);
    }
  }

  /**
   * `ToArray`: a single-segment sequence is copied from its first span; any other is copied
   * segment by segment into an array of its total length.
   */
  function ToArray(segments: seq<seq<byte>>): (r: seq<byte>)
    ensures |r| == TotalLength(segments)
    ensures forall i :: 0 <= i < |segments| ==> Offset(segments, i) + |segments[i]| <= |r|
    ensures forall i, j :: 0 <= i < |segments| && 0 <= j < |segments[i]| ==>
              r[Offset(segments, i) + j] == segments[i][j]
  {
    var r := if |segments| <= 1 then (if segments == [] then [] else segments[0]) else Concat(segments);
    ToArrayLayout(segments, r);
    r
  }

  lemma ToArrayLayout(segments: seq<seq<byte>>, r: seq<byte>)
    requires r == Concat(segments) || (|segments| <= 1 && r == if segments == [] then [] else segments[0])
    ensures |r| == TotalLength(segments)
    ensures forall i :: 0 <= i < |segments| ==> Offset(segments, i) + |segments[i]| <= |r|
    ensures forall i, j :: 0 <= i < |segments| && 0 <= j < |segments[i]| ==>
              r[Offset(segments, i) + j] == segments[i][j]
  {
    if |segments| <= 1 {
      SingleSegmentAgrees(segments);
    }
    assert r == Concat(segments);
    ConcatLength(segments);
    forall i | 0 <= i < |segments|
      ensures Offset(segments, i) + |segments[i]| <= |r|
    {
      OffsetBound(segments, i);
    }
    forall i, j | 0 <= i < |segments| && 0 <= j < |segments[i]|
      ensures r[Offset(segments, i) + j] == segments[i][j]
    {
      ConcatAt(segments, i, j);
    }
  }

  /** The single-segment fast path returns the same bytes as the general copy. */
  lemma SingleSegmentAgrees(segments: seq<seq<byte>>)
    requires |segments| <= 1
    ensures Concat(segments) == if segments == [] then [] else segments[0]
  {
    if segments != [] {
      assert segments[1..] == [];
    }
  }

  /** Both paths of ToArray give the segments concatenated in order. */
  lemma ToArrayIsConcat(segments: seq<seq<byte>>)
    ensures ToArray(segments) == Concat(segments)
  {
    if |segments| <= 1 {
      SingleSegmentAgrees(segments);
    }
  }

  /** An empty sequence, or one made only of empty segments, yields an empty array. */
  lemma {:induction false} EmptyYieldsEmpty(segments: seq<seq<byte>>)
    requires forall i :: 0 <= i < |segments| ==> segments[i] == []
    ensures ToArray(segments) == []
  {
    ConcatLength(segments);
    if segments != [] {
      EmptyYieldsEmpty(segments[1..]);
    }
  }
}
