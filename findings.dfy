/**
 * Concrete exchanges that set the framer as written apart from the framer
 * as intended, with the sizes the Modbus RTU transport uses (a minimum
 * read of 4 bytes, a 256-byte buffer, 5-byte exception replies) and a
 * request for function 0x03 of device 1 whose normal reply is predicted
 * to be 7 bytes long.
 */
module Findings {
  import opened Stream
  import opened Framer
  import opened FramerFacts
  import opened Replies

  const RtuSizes := Sizes(4, 256, 5)
  const Request: seq<Byte> := [1, 3]

  /** The exception reply 01 83 02 AA BB, delivered as four bytes and then one. */
  lemma ExceptionDelivery()
    ensures Arrives(RtuSizes, [1, 0x83, 2, 0xAA, 0xBB], [[1, 0x83, 2, 0xAA], [0xBB]])
    ensures Cut(RtuSizes, [[1, 0x83, 2, 0xAA], [0xBB]]) == 4
    ensures Taken([[1, 0x83, 2, 0xAA], [0xBB]], 4) == 1
  {
    var c: Chunks := [[1, 0x83, 2, 0xAA], [0xBB]];
    FlattenCons(c[1], []);
    assert c == [c[0]] + [c[1]];
    FlattenCons(c[0], [c[1]]);
    assert Taken(c[1..], 0) == 0;
    assert c[..1] == [c[0]] + [];
    FlattenCons(c[0], []);
  }

  /**
   * As written the fail code is 0x00, byte 1 (0x83) matches neither code,
   * and the frame accepted is 01 83 02 AA: the last byte stays on the wire.
   */
  lemma ExceptionReplyTruncated()
    ensures Response(AsWritten, RtuSizes, Request, 7, DeadlineExceeded, [[1, 0x83, 2, 0xAA], [0xBB]]) ==
      Exchange([1, 0x83, 2, 0xAA], None, [[0xBB]])
  {
    var e: seq<Byte> := [1, 0x83, 2, 0xAA, 0xBB];
    var c: Chunks := [[1, 0x83, 2, 0xAA], [0xBB]];
    ExceptionDelivery();
    assert c + [] == c && e[..4] == c[0] && c[1..] + [] == [[0xBB]];
    AsWrittenExceptionCutShort(RtuSizes, Request, 7, DeadlineExceeded, e, c, [], Start(RtuSizes, c));
  }

  /** As intended the same delivery yields the whole exception reply. */
  lemma ExceptionReplyWhole()
    ensures Response(Intended, RtuSizes, Request, 7, DeadlineExceeded, [[1, 0x83, 2, 0xAA], [0xBB]]) ==
      Exchange([1, 0x83, 2, 0xAA, 0xBB], None, [])
  {
    var e: seq<Byte> := [1, 0x83, 2, 0xAA, 0xBB];
    var c: Chunks := [[1, 0x83, 2, 0xAA], [0xBB]];
    ExceptionDelivery();
    assert c + [] == c;
    IntendedExceptionAccepted(RtuSizes, Request, 7, DeadlineExceeded, e, c, [], Start(RtuSizes, c));
  }

  /**
   * A stray frame 02 00 09 09 07 from device 2 takes the fail branch,
   * whose top-up leaves n1 == 1. The next frame, 01 00 05 05 05, takes the
   * fail branch again with no read, yet n1 is added to n: the frame
   * accepted is six bytes long, and its last byte is a zero the wire never
   * carried.
   */
  lemma StaleCountAddsUnreadByte()
    ensures Response(AsWritten, RtuSizes, Request, 7, DeadlineExceeded, [[2, 0, 9, 9], [7], [1, 0, 5, 5, 5]]) ==
      Exchange([1, 0, 5, 5, 5, 0], None, [])
  {
    var q: Chunks := [[2, 0, 9, 9], [7], [1, 0, 5, 5, 5]];
    var st := Start(RtuSizes, q);
    assert q == [q[0]] + q[1..];
    ReadChunk(q[0], q[1..], DeadlineExceeded, 256, 4);
    var b0 := Staged(RtuSizes, DeadlineExceeded, st);
    PlaceAt(st.buf, 0, q[0], 1);
    PlaceAt(st.buf, 0, q[0], 5);
    assert b0[1] == 0 && b0[5] == 0;
    assert q[1..] == [[7]] + [q[2]];
    ReadChunk([7], [q[2]], DeadlineExceeded, 1, 1);
    var b1 := Place(b0, 4, [7]);
    PlaceAt(b0, 4, [7], 0);
    PlaceAt(b0, 4, [7], 5);
    assert Assemble(AsWritten, RtuSizes, Request, 7, DeadlineExceeded, st) == Candidate(5, b1, 1, [q[2]]);
    var next := Loop([q[2]], b1, 1, Some(5));
    assert Iteration(AsWritten, RtuSizes, Request, 7, DeadlineExceeded, st) == Again(next);
    assert [q[2]] == [q[2]] + [];
    ReadChunk(q[2], [], DeadlineExceeded, 256, 4);
    var b2 := Staged(RtuSizes, DeadlineExceeded, next);
    PlaceSlices(b1, 0, q[2]);
    PlaceAt(b1, 0, q[2], 5);
    assert b2[..6] == q[2] + [0];
  }

  /**
   * Once the count is reset on every turn, with or without the correction
   * of the fail code, no byte is ever added that the wire did not carry.
   */
  lemma NoUnreadBytesOnceReset(v: Variant, q: Chunks)
    requires v != AsWritten
    ensures var x := Response(v, RtuSizes, Request, 7, DeadlineExceeded, q);
      x.err != Some(SliceBoundsPanic) && (x.err.None? ==> IsSuffix(x.resp + Flatten(x.rest), Flatten(q)))
  {
    ResetFrameIsFromStream(v, RtuSizes, Request, 7, DeadlineExceeded, Start(RtuSizes, q));
  }
}
