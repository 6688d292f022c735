/**
 * What the framer promises: an accepted frame carries the request's
 * address and fits the buffer; a stream that ends early is an error; each
 * classification of byte 1 reads exactly what it should; a discarded frame
 * is never read again; and, once the count n1 is reset on every turn,
 * every accepted frame is a contiguous piece of the stream.
 */
module FramerFacts {
  import opened Stream
  import opened Framer

  /** The first read never fails for lack of room, and fails only when the stream runs out. */
  lemma FirstReadFacts(sz: Sizes, end: Error, st: Loop)
    requires sz.Valid() && Fits(sz, st)
    ensures var first := FirstRead(sz, end, st);
      && Staged(sz, end, st)[..|first.got|] == first.got
      && (first.err.None? <==> sz.min <= |Flatten(st.q)|)
      && (first.err.Some? ==>
            first.rest == [] && first.got == Flatten(st.q) &&
            first.err == Some(if first.got != [] && end == EOF then UnexpectedEOF else end))
  {
    var first := FirstRead(sz, end, st);
    PlaceSlices(st.buf, 0, first.got);
  }

  /** io.ReadFull(conn, data[n:upTo]): exactly the next upTo - n bytes in place, or an error and nothing left on the wire. */
  lemma TopUpFacts(buf: seq<Byte>, n: nat, upTo: nat, q: Chunks, end: Error)
    requires n <= upTo <= |buf|
    ensures var a := TopUp(buf, n, upTo, q, end);
      && (a.Candidate? <==> upTo - n <= |Flatten(q)|)
      && a.buf[..n] == buf[..n]
      && (a.Candidate? ==>
            a.n == upTo && a.n1 == upTo - n &&
            a.buf[n..upTo] == Flatten(q)[..upTo - n] &&
            Flatten(q) == a.buf[n..upTo] + Flatten(a.rest))
      && (a.Broken? ==>
            a.rest == [] &&
            a.err == if Flatten(q) != [] && end == EOF then UnexpectedEOF else end)
  {
    TopUpOutcome(buf, n, upTo, q, end);
    TopUpBytes(buf, n, upTo, q, end);
  }

  /** The counts and the error of a top-up. */
  lemma TopUpOutcome(buf: seq<Byte>, n: nat, upTo: nat, q: Chunks, end: Error)
    requires n <= upTo <= |buf|
    ensures var a := TopUp(buf, n, upTo, q, end);
      && (a.Candidate? <==> upTo - n <= |Flatten(q)|)
      && (a.Candidate? ==> a.n == upTo && a.n1 == upTo - n)
      && (a.Broken? ==>
            a.rest == [] &&
            a.err == if Flatten(q) != [] && end == EOF then UnexpectedEOF else end)
  {
  }

  /** Where a top-up puts its bytes: after the first n, which it leaves alone. */
  lemma TopUpBytes(buf: seq<Byte>, n: nat, upTo: nat, q: Chunks, end: Error)
    requires n <= upTo <= |buf|
    ensures var a := TopUp(buf, n, upTo, q, end);
      && a.buf[..n] == buf[..n]
      && (a.Candidate? ==>
            a.buf[n..upTo] == Flatten(q)[..upTo - n] &&
            Flatten(q) == a.buf[n..upTo] + Flatten(a.rest))
  {
    var more := ReadFull(q, end, upTo - n);
    var placed := Place(buf, n, more.got);
    assert TopUp(buf, n, upTo, q, end).buf == placed;
    PlaceSlices(buf, n, more.got);
    if more.err.None? {
      TopUpTakesNext(buf, n, upTo, q, end, more);
    }
  }

  /** A top-up that succeeds copies the next upTo - n bytes of the stream to data[n:upTo]. */
  lemma TopUpTakesNext(buf: seq<Byte>, n: nat, upTo: nat, q: Chunks, end: Error, more: Reading)
    requires n <= upTo <= |buf|
    requires more == ReadFull(q, end, upTo - n) && more.err.None?
    ensures var placed := Place(buf, n, more.got);
      placed[n..upTo] == Flatten(q)[..upTo - n] && Flatten(q) == placed[n..upTo] + Flatten(more.rest)
  {
    PlacedFront(buf, n, upTo, more.got, Flatten(q), Flatten(more.rest));
  }

  /** Bytes got that the stream w starts with, copied to data[n:upTo], are the first upTo - n bytes of w. */
  lemma PlacedFront(buf: seq<Byte>, n: nat, upTo: nat, got: seq<Byte>, w: seq<Byte>, rest: seq<Byte>)
    requires n <= upTo <= |buf| && |got| == upTo - n && w == got + rest
    ensures var placed := Place(buf, n, got);
      placed[n..upTo] == w[..upTo - n] && w == placed[n..upTo] + rest
  {
    PlaceSlices(buf, n, got);
    assert w[..|got|] == got;
  }

  /** Lines 87-90: when the first read fails, the turn ends with its error and the stale aduResponse. */
  lemma FirstReadFailure(v: Variant, sz: Sizes, req: seq<Byte>, toRead: int, end: Error, st: Loop)
    requires sz.Valid() && |req| >= 2 && Fits(sz, st)
    requires |Flatten(st.q)| < sz.min
    ensures Iteration(v, sz, req, toRead, end, st) ==
      Done(Exchange(View(Staged(sz, end, st), st.slice),
                    Some(if Flatten(st.q) != [] && end == EOF then UnexpectedEOF else end), []))
  {
    FirstReadFacts(sz, end, st);
  }

  /** A stream that fails before rtuMinSize bytes arrive gives an error and no frame. */
  lemma ShortStreamFails(v: Variant, sz: Sizes, req: seq<Byte>, toRead: int, end: Error, q: Chunks)
    requires sz.Valid() && |req| >= 2
    requires |Flatten(q)| < sz.min
    ensures Response(v, sz, req, toRead, end, q) ==
      Exchange([], Some(if Flatten(q) != [] && end == EOF then UnexpectedEOF else end), [])
  {
    FirstReadFailure(v, sz, req, toRead, end, Start(sz, q));
  }

  /**
   * Lines 92-98: a normal reply shorter than the predicted length, with the
   * prediction in (rtuMinSize, rtuMaxSize], is topped up to exactly that
   * length: the bytes of the first read followed by the next ones on the
   * wire. A stream that ends first gives an error, never a frame.
   */
  lemma NormalReplyTopUp(v: Variant, sz: Sizes, req: seq<Byte>, toRead: int, end: Error, st: Loop)
    requires sz.Valid() && |req| >= 2 && Fits(sz, st)
    requires FirstRead(sz, end, st).err.None? && Staged(sz, end, st)[1] == req[1]
    requires |FirstRead(sz, end, st).got| < toRead && sz.min < toRead <= sz.max
    ensures var first := FirstRead(sz, end, st);
      var a := Assemble(v, sz, req, toRead, end, st);
      && (a.Candidate? <==> toRead <= |Flatten(st.q)|)
      && (a.Candidate? ==>
            a.n == toRead &&
            a.buf[..a.n] == first.got + Flatten(first.rest)[..toRead - |first.got|])
      && (a.Broken? ==> a.rest == [])
  {
    var first := FirstRead(sz, end, st);
    FirstReadFacts(sz, end, st);
    var buf := Staged(sz, end, st);
    TopUpFacts(buf, |first.got|, toRead, first.rest, end);
    var a := Assemble(v, sz, req, toRead, end, st);
    if a.Candidate? {
      assert a.buf[..a.n] == a.buf[..|first.got|] + a.buf[|first.got|..toRead];
    }
  }

  /**
   * Lines 94-95: when the first read already holds the predicted length, or
   * the prediction is outside (rtuMinSize, rtuMaxSize], nothing more is read
   * and the frame is the bytes of the first read.
   */
  lemma NormalReplyAsRead(v: Variant, sz: Sizes, req: seq<Byte>, toRead: int, end: Error, st: Loop)
    requires sz.Valid() && |req| >= 2 && Fits(sz, st)
    requires FirstRead(sz, end, st).err.None? && Staged(sz, end, st)[1] == req[1]
    requires !(|FirstRead(sz, end, st).got| < toRead && sz.min < toRead <= sz.max)
    ensures var first := FirstRead(sz, end, st);
      var a := Assemble(v, sz, req, toRead, end, st);
      && a == Candidate(|first.got|, Staged(sz, end, st), Carried(v, st.n1), first.rest)
      && a.buf[..a.n] == first.got
  {
    FirstReadFacts(sz, end, st);
  }

  /**
   * Lines 100-105 with a short first read: exactly rtuExceptionSize - n
   * more bytes are read and the frame is rtuExceptionSize bytes long; a
   * stream that ends first gives an error, never a frame.
   */
  lemma ExceptionReplyTopUp(v: Variant, sz: Sizes, req: seq<Byte>, toRead: int, end: Error, st: Loop)
    requires sz.Valid() && |req| >= 2 && Fits(sz, st)
    requires FirstRead(sz, end, st).err.None?
    requires Staged(sz, end, st)[1] != req[1] && Staged(sz, end, st)[1] == FailCode(v, req[1])
    requires |FirstRead(sz, end, st).got| < sz.exception
    ensures var first := FirstRead(sz, end, st);
      var a := Assemble(v, sz, req, toRead, end, st);
      && (a.Candidate? <==> sz.exception <= |Flatten(st.q)|)
      && (a.Candidate? ==>
            a.n == sz.exception && a.n1 == sz.exception - |first.got| &&
            a.buf[..a.n] == first.got + Flatten(first.rest)[..sz.exception - |first.got|])
      && (a.Broken? ==> a.rest == [])
  {
    var first := FirstRead(sz, end, st);
    FirstReadFacts(sz, end, st);
    var buf := Staged(sz, end, st);
    TopUpFacts(buf, |first.got|, sz.exception, first.rest, end);
    var a := Assemble(v, sz, req, toRead, end, st);
    if a.Candidate? {
      assert a.buf[..a.n] == a.buf[..|first.got|] + a.buf[|first.got|..sz.exception];
    }
  }

  /**
   * Line 105 with no read at line 103: the count n1 of the turn before is
   * added to n all the same, as written; once the count is reset nothing is added.
   */
  lemma ExceptionReplyAsRead(v: Variant, sz: Sizes, req: seq<Byte>, toRead: int, end: Error, st: Loop)
    requires sz.Valid() && |req| >= 2 && Fits(sz, st)
    requires FirstRead(sz, end, st).err.None?
    requires Staged(sz, end, st)[1] != req[1] && Staged(sz, end, st)[1] == FailCode(v, req[1])
    requires sz.exception <= |FirstRead(sz, end, st).got|
    ensures var first := FirstRead(sz, end, st);
      var a := Assemble(v, sz, req, toRead, end, st);
      && a == Candidate(|first.got| + Carried(v, st.n1), Staged(sz, end, st), Carried(v, st.n1), first.rest)
      && (v == AsWritten ==> a.n == |first.got| + st.n1)
      && (v != AsWritten ==> a.buf[..a.n] == first.got)
  {
    FirstReadFacts(sz, end, st);
  }

  /** Lines 91-111 with byte 1 matching neither code: nothing more is read. */
  lemma UnclassifiedReply(v: Variant, sz: Sizes, req: seq<Byte>, toRead: int, end: Error, st: Loop)
    requires sz.Valid() && |req| >= 2 && Fits(sz, st)
    requires FirstRead(sz, end, st).err.None?
    requires Staged(sz, end, st)[1] != req[1] && Staged(sz, end, st)[1] != FailCode(v, req[1])
    ensures var first := FirstRead(sz, end, st);
      var a := Assemble(v, sz, req, toRead, end, st);
      && a == Candidate(|first.got|, Staged(sz, end, st), Carried(v, st.n1), first.rest)
      && a.buf[..a.n] == first.got
  {
    FirstReadFacts(sz, end, st);
  }

  /** A top-up takes its bytes from the front of what is left, as the first read did. */
  lemma TopUpConsumesPrefix(buf: seq<Byte>, n: nat, upTo: nat, q: Chunks, end: Error, whole: seq<Byte>)
    requires n <= upTo <= |buf| && IsSuffix(Flatten(q), whole)
    ensures var a := TopUp(buf, n, upTo, q, end);
      IsSuffix(Flatten(a.rest), whole) && |Flatten(a.rest)| <= |Flatten(q)|
  {
    TopUpFacts(buf, n, upTo, q, end);
    var a := TopUp(buf, n, upTo, q, end);
    if a.Candidate? {
      SuffixOfSplit(a.buf[n..upTo], Flatten(a.rest));
      SuffixTransitive(Flatten(a.rest), Flatten(q), whole);
    } else {
      SuffixOfSplit(whole, []);
    }
  }

  /** The classification and top-up take their bytes from the front of what the first read left. */
  lemma CompleteConsumesPrefix(v: Variant, sz: Sizes, req: seq<Byte>, toRead: int, end: Error,
                               buf: seq<Byte>, n: nat, n1: nat, q: Chunks, whole: seq<Byte>)
    requires sz.Valid() && |req| >= 2 && |buf| == sz.max && n <= sz.max
    requires IsSuffix(Flatten(q), whole)
    ensures var a := Complete(v, sz, req, toRead, end, buf, n, n1, q);
      IsSuffix(Flatten(a.rest), whole) && |Flatten(a.rest)| <= |Flatten(q)|
  {
    if buf[1] == req[1] && n < toRead && sz.min < toRead <= sz.max {
      TopUpConsumesPrefix(buf, n, toRead, q, end, whole);
    } else if buf[1] != req[1] && buf[1] == FailCode(v, req[1]) && n < sz.exception {
      TopUpConsumesPrefix(buf, n, sz.exception, q, end, whole);
    }
  }

  /** Every turn takes its bytes from the front of the stream, at least rtuMinSize of them when it yields a frame. */
  lemma AssembleConsumesPrefix(v: Variant, sz: Sizes, req: seq<Byte>, toRead: int, end: Error, st: Loop)
    requires sz.Valid() && |req| >= 2 && Fits(sz, st)
    ensures var a := Assemble(v, sz, req, toRead, end, st);
      && IsSuffix(Flatten(a.rest), Flatten(st.q))
      && (a.Candidate? ==> |Flatten(a.rest)| + sz.min <= |Flatten(st.q)|)
  {
    var first := FirstRead(sz, end, st);
    FirstReadFacts(sz, end, st);
    if first.err.None? {
      SuffixOfSplit(first.got, Flatten(first.rest));
      CompleteConsumesPrefix(v, sz, req, toRead, end, Staged(sz, end, st), |first.got|, Carried(v, st.n1),
        first.rest, Flatten(st.q));
    } else {
      SuffixOfSplit(Flatten(st.q), []);
    }
  }

  /**
   * Lines 113-116: a frame whose address is not the request's is dropped.
   * The next turn starts on the bytes after it, at least rtuMinSize of them
   * fewer, and the loop goes on from there as if the frame had never been.
   */
  lemma MismatchedFrameSkipped(v: Variant, sz: Sizes, req: seq<Byte>, toRead: int, end: Error, st: Loop)
    requires sz.Valid() && |req| >= 2 && Fits(sz, st)
    requires Iteration(v, sz, req, toRead, end, st).Again?
    ensures var next := Iteration(v, sz, req, toRead, end, st).next;
      && next.buf[0] != req[0]
      && IsSuffix(Flatten(next.q), Flatten(st.q))
      && |Flatten(next.q)| + sz.min <= |Flatten(st.q)|
      && Frame(v, sz, req, toRead, end, st) == Frame(v, sz, req, toRead, end, next)
  {
    AssembleConsumesPrefix(v, sz, req, toRead, end, st);
  }

  /**
   * Lines 108-115: the only way out without an error is the address match,
   * so an accepted frame starts with the request's address, holds at least
   * rtuMinSize bytes and fits the buffer; and every exchange reads the
   * stream from the front.
   */
  lemma {:induction false} AcceptedEchoesAddress(v: Variant, sz: Sizes, req: seq<Byte>, toRead: int, end: Error, st: Loop)
    requires sz.Valid() && |req| >= 2 && Fits(sz, st)
    ensures var x := Frame(v, sz, req, toRead, end, st);
      x.err.None? ==> sz.min <= |x.resp| <= sz.max && x.resp[0] == req[0]
    ensures IsSuffix(Flatten(Frame(v, sz, req, toRead, end, st).rest), Flatten(st.q))
    decreases Measure(st.q)
  {
    TurnEchoesAddress(v, sz, req, toRead, end, st);
    match Iteration(v, sz, req, toRead, end, st)
    case Done(x) =>
    case Again(next) =>
      AcceptedEchoesAddress(v, sz, req, toRead, end, next);
      SuffixTransitive(Flatten(Frame(v, sz, req, toRead, end, next).rest), Flatten(next.q), Flatten(st.q));
  }

  /** One turn of AcceptedEchoesAddress: a turn ends well only on the address match, and reads from the front. */
  lemma TurnEchoesAddress(v: Variant, sz: Sizes, req: seq<Byte>, toRead: int, end: Error, st: Loop)
    requires sz.Valid() && |req| >= 2 && Fits(sz, st)
    ensures var t := Iteration(v, sz, req, toRead, end, st);
      && (t.Done? && t.x.err.None? ==> sz.min <= |t.x.resp| <= sz.max && t.x.resp[0] == req[0])
      && (t.Done? ==> IsSuffix(Flatten(t.x.rest), Flatten(st.q)))
      && (t.Again? ==> IsSuffix(Flatten(t.next.q), Flatten(st.q)))
  {
    AssembleConsumesPrefix(v, sz, req, toRead, end, st);
  }

  /** readResponse succeeds only with a frame that answers the request's address. */
  lemma ResponseEchoesAddress(v: Variant, sz: Sizes, req: seq<Byte>, toRead: int, end: Error, q: Chunks)
    requires sz.Valid() && |req| >= 2
    ensures var x := Response(v, sz, req, toRead, end, q);
      x.err.None? ==> sz.min <= |x.resp| <= sz.max && x.resp[0] == req[0]
  {
    AcceptedEchoesAddress(v, sz, req, toRead, end, Start(sz, q));
  }

  /** A successful top-up: the frame so far and the bytes it took, followed by what is left, are the stream as it was. */
  lemma TopUpIsRead(buf: seq<Byte>, n: nat, upTo: nat, q: Chunks, end: Error)
    requires n <= upTo <= |buf|
    ensures var a := TopUp(buf, n, upTo, q, end);
      a.Candidate? ==> buf[..n] + Flatten(q) == a.buf[..a.n] + Flatten(a.rest)
  {
    TopUpFacts(buf, n, upTo, q, end);
    var a := TopUp(buf, n, upTo, q, end);
    if a.Candidate? {
      assert a.buf[..upTo] == a.buf[..n] + a.buf[n..upTo];
    }
  }

  /** With the count reset on every turn, a turn's candidate frame is exactly the bytes the turn took off the wire. */
  lemma ResetCandidateIsRead(v: Variant, sz: Sizes, req: seq<Byte>, toRead: int, end: Error, st: Loop)
    requires v != AsWritten && sz.Valid() && |req| >= 2 && Fits(sz, st)
    ensures var a := Assemble(v, sz, req, toRead, end, st);
      a.Candidate? ==> a.n <= sz.max && Flatten(st.q) == a.buf[..a.n] + Flatten(a.rest)
  {
    var first := FirstRead(sz, end, st);
    var buf := Staged(sz, end, st);
    var n := |first.got|;
    FirstReadFacts(sz, end, st);
    if first.err.None? {
      if buf[1] == req[1] && n < toRead && sz.min < toRead <= sz.max {
        TopUpIsRead(buf, n, toRead, first.rest, end);
      } else if buf[1] != req[1] && buf[1] == FailCode(v, req[1]) && n < sz.exception {
        TopUpIsRead(buf, n, sz.exception, first.rest, end);
      }
    }
  }

  /** A turn that breaks off fails with the error a read failed with. */
  lemma BrokenTurnError(v: Variant, sz: Sizes, req: seq<Byte>, toRead: int, end: Error, st: Loop)
    requires sz.Valid() && |req| >= 2 && Fits(sz, st)
    ensures var a := Assemble(v, sz, req, toRead, end, st);
      a.Broken? ==> a.err == end || a.err == UnexpectedEOF
  {
    var first := FirstRead(sz, end, st);
    var buf := Staged(sz, end, st);
    var n := |first.got|;
    FirstReadFacts(sz, end, st);
    if first.err.None? {
      if buf[1] == req[1] && n < toRead && sz.min < toRead <= sz.max {
        TopUpFacts(buf, n, toRead, first.rest, end);
      } else if buf[1] != req[1] && buf[1] == FailCode(v, req[1]) && n < sz.exception {
        TopUpFacts(buf, n, sz.exception, first.rest, end);
      }
    }
  }

  /**
   * With the count reset on every turn (the correction of line 105, with or
   * without that of line 77), the framer never slices past its buffer, and
   * an accepted frame is a contiguous piece of the stream with everything
   * after it still on the wire: no byte is invented or read twice. (The
   * connection fails with an I/O error, not with the runtime panic.)
   */
  lemma {:induction false} ResetFrameIsFromStream(v: Variant, sz: Sizes, req: seq<Byte>, toRead: int, end: Error, st: Loop)
    requires v != AsWritten && sz.Valid() && |req| >= 2 && Fits(sz, st)
    requires end != SliceBoundsPanic
    ensures var x := Frame(v, sz, req, toRead, end, st);
      && x.err != Some(SliceBoundsPanic)
      && (x.err.None? ==> IsSuffix(x.resp + Flatten(x.rest), Flatten(st.q)))
    decreases Measure(st.q)
  {
    ResetTurnIsFromStream(v, sz, req, toRead, end, st);
    match Iteration(v, sz, req, toRead, end, st)
    case Done(x) =>
    case Again(next) =>
      ResetFrameIsFromStream(v, sz, req, toRead, end, next);
      var x := Frame(v, sz, req, toRead, end, next);
      if x.err.None? {
        SuffixTransitive(x.resp + Flatten(x.rest), Flatten(next.q), Flatten(st.q));
      }
  }

  /** One turn of ResetFrameIsFromStream: no panic, and the frame it accepts or skips is read from the front. */
  lemma ResetTurnIsFromStream(v: Variant, sz: Sizes, req: seq<Byte>, toRead: int, end: Error, st: Loop)
    requires v != AsWritten && sz.Valid() && |req| >= 2 && Fits(sz, st)
    requires end != SliceBoundsPanic
    ensures var t := Iteration(v, sz, req, toRead, end, st);
      && (t.Done? ==> t.x.err != Some(SliceBoundsPanic))
      && (t.Done? && t.x.err.None? ==> IsSuffix(t.x.resp + Flatten(t.x.rest), Flatten(st.q)))
      && (t.Again? ==> IsSuffix(Flatten(t.next.q), Flatten(st.q)))
  {
    ResetCandidateSplits(v, sz, req, toRead, end, st);
    BrokenTurnError(v, sz, req, toRead, end, st);
    match Assemble(v, sz, req, toRead, end, st)
    case Broken(e, buf, rest) =>
    case Candidate(n, buf, n1, rest) =>
  }

  /** With the count reset, a candidate frame fits the buffer, and it and what follows it are the stream read from the front. */
  lemma ResetCandidateSplits(v: Variant, sz: Sizes, req: seq<Byte>, toRead: int, end: Error, st: Loop)
    requires v != AsWritten && sz.Valid() && |req| >= 2 && Fits(sz, st)
    ensures var a := Assemble(v, sz, req, toRead, end, st);
      a.Candidate? ==>
        && a.n <= sz.max
        && IsSuffix(a.buf[..a.n] + Flatten(a.rest), Flatten(st.q))
        && IsSuffix(Flatten(a.rest), Flatten(st.q))
  {
    ResetCandidateIsRead(v, sz, req, toRead, end, st);
    var a := Assemble(v, sz, req, toRead, end, st);
    if a.Candidate? {
      var w := Flatten(st.q);
      SuffixOfSplit(a.buf[..a.n], Flatten(a.rest));
      SuffixOfSplit([], w);
      assert [] + w == w;
    }
  }
}

/**
 * Whole replies as they arrive: what the framer makes of a well-formed
 * normal reply, of an exception reply, and of a stray frame in front of
 * the awaited one. A reply e may reach the connection in any number of
 * chunks c, as long as they hold e and nothing else (the reply ends on a
 * chunk boundary) and the first read of the turn reaches byte 1.
 */
module Replies {
  import opened Stream
  import opened Framer
  import opened FramerFacts

  /** How many bytes of a reply delivered as c the first read of a turn takes. */
  function Cut(sz: Sizes, c: Chunks): nat {
    |Flatten(c[..Taken(c, sz.min)])|
  }

  /**
   * An admissible delivery of the reply e: non-empty chunks that make up e
   * exactly, a reply that fits the buffer and holds rtuMinSize bytes, and a
   * first read that reaches the function byte the framer inspects. The
   * bound Cut <= |e| always holds, since Cut counts chunks of e; it is
   * stated so that e[..Cut] is well formed wherever Arrives is assumed.
   */
  predicate Arrives(sz: Sizes, e: seq<Byte>, c: Chunks) {
    Solid(c) && Flatten(c) == e && sz.min <= |e| <= sz.max && 2 <= Cut(sz, c) <= |e|
  }

  /** The first read of a turn takes whole chunks of the reply, at least rtuMinSize bytes of it. */
  lemma FirstChunks(sz: Sizes, end: Error, e: seq<Byte>, c: Chunks, r: Chunks, st: Loop)
    requires sz.Valid() && Fits(sz, st) && Arrives(sz, e, c)
    requires st.q == c + r
    ensures var j := Taken(c, sz.min);
      var k := Cut(sz, c);
      && sz.min <= k <= |e|
      && Solid(c[j..]) && Flatten(c[j..]) == e[k..]
      && (k == |e| ==> c[j..] == [])
      && FirstRead(sz, end, st) == Reading(e[..k], c[j..] + r, None)
      && Staged(sz, end, st)[..k] == e[..k]
  {
    var j := Taken(c, sz.min);
    ReadWhole(c, r, end, sz.max, sz.min);
    FlattenSplit(c, j);
    var k := Cut(sz, c);
    assert e[..k] == Flatten(c[..j]) && e[k..] == Flatten(c[j..]);
    assert forall i :: 0 <= i < |c[j..]| ==> c[j..][i] == c[j + i];
    if k == |e| {
      SolidEmpty(c[j..]);
    }
    FirstReadFacts(sz, end, st);
  }

  /** A top-up that the remaining chunks of the reply fill exactly. */
  lemma LastChunks(end: Error, e: seq<Byte>, k: nat, c: Chunks, r: Chunks, buf: seq<Byte>)
    requires k < |e| <= |buf| && buf[..k] == e[..k]
    requires Solid(c) && Flatten(c) == e[k..]
    ensures TopUp(buf, k, |e|, c + r, end) == Candidate(|e|, Place(buf, k, e[k..]), |e| - k, r)
    ensures Place(buf, k, e[k..])[..|e|] == e
  {
    ReadFullWhole(c, r, end);
    assert |Flatten(c)| == |e| - k;
    PlacedTail(buf, k, e);
  }

  /** Copying the part of e after its first k bytes behind them completes e in the buffer. */
  lemma PlacedTail(buf: seq<Byte>, k: nat, e: seq<Byte>)
    requires k <= |e| <= |buf| && buf[..k] == e[..k]
    ensures Place(buf, k, e[k..])[..|e|] == e
  {
    var b := Place(buf, k, e[k..]);
    PlaceSlices(buf, k, e[k..]);
    assert b[..|e|] == b[..k] + b[k..|e|];
    assert e == e[..k] + e[k..];
  }

  /**
   * A reply to the request's function whose length is the predicted one
   * yields a frame holding exactly that reply, with everything after it
   * left on the wire, in every variant and whatever the turn started from.
   */
  lemma NormalTurn(v: Variant, sz: Sizes, req: seq<Byte>, end: Error, e: seq<Byte>, c: Chunks, r: Chunks, st: Loop)
    requires sz.Valid() && |req| >= 2 && Fits(sz, st) && Arrives(sz, e, c)
    requires e[1] == req[1] && st.q == c + r
    ensures var a := Assemble(v, sz, req, |e|, end, st);
      a.Candidate? && a.n == |e| && a.buf[..|e|] == e && a.rest == r
  {
    FirstChunks(sz, end, e, c, r, st);
    var k := Cut(sz, c);
    if k < |e| {
      LastChunks(end, e, k, c[Taken(c, sz.min)..], r, Staged(sz, end, st));
    } else {
      assert c[Taken(c, sz.min)..] + r == r;
    }
  }

  /** Scenario: a well-formed normal reply of the predicted length from the right device is accepted unchanged. */
  lemma NormalReplyAccepted(v: Variant, sz: Sizes, req: seq<Byte>, end: Error, e: seq<Byte>, c: Chunks, r: Chunks, st: Loop)
    requires sz.Valid() && |req| >= 2 && Fits(sz, st) && Arrives(sz, e, c)
    requires e[0] == req[0] && e[1] == req[1] && st.q == c + r
    ensures Frame(v, sz, req, |e|, end, st) == Exchange(e, None, r)
  {
    NormalTurn(v, sz, req, end, e, c, r, st);
  }

  /**
   * Scenario: a normal reply from another device comes first; it is
   * dropped and the awaited reply behind it is accepted unchanged.
   */
  lemma StrayReplySkipped(v: Variant, sz: Sizes, req: seq<Byte>, end: Error,
                          s: seq<Byte>, cs: Chunks, e: seq<Byte>, c: Chunks, r: Chunks, st: Loop)
    requires sz.Valid() && |req| >= 2 && Fits(sz, st) && Arrives(sz, s, cs) && Arrives(sz, e, c)
    requires |s| == |e| && s[0] != req[0] && s[1] == req[1]
    requires e[0] == req[0] && e[1] == req[1]
    requires st.q == cs + (c + r)
    ensures Frame(v, sz, req, |e|, end, st) == Exchange(e, None, r)
  {
    NormalTurn(v, sz, req, end, s, cs, c + r, st);
    var next := Iteration(v, sz, req, |e|, end, st).next;
    NormalReplyAccepted(v, sz, req, end, e, c, r, next);
  }

  /** As intended, an exception reply of rtuExceptionSize bytes yields a frame holding exactly that reply. */
  lemma IntendedExceptionTurn(sz: Sizes, req: seq<Byte>, toRead: int, end: Error,
                              e: seq<Byte>, c: Chunks, r: Chunks, st: Loop)
    requires sz.Valid() && |req| >= 2 && Fits(sz, st) && Arrives(sz, e, c)
    requires req[1] & 0x80 == 0 && |e| == sz.exception
    requires e[1] == req[1] | 0x80 && st.q == c + r
    ensures var a := Assemble(Intended, sz, req, toRead, end, st);
      a.Candidate? && a.n == |e| && a.buf[..|e|] == e && a.rest == r
  {
    FirstChunks(sz, end, e, c, r, st);
    var buf := Staged(sz, end, st);
    var k := Cut(sz, c);
    assert buf[1] == e[1] != req[1];
    if k < |e| {
      LastChunks(end, e, k, c[Taken(c, sz.min)..], r, buf);
    } else {
      assert c[Taken(c, sz.min)..] + r == r;
    }
  }

  /**
   * As intended: an exception reply (the request's function code with the
   * high bit set, rtuExceptionSize bytes long) from the right device is
   * accepted unchanged, whatever length was predicted for a normal reply.
   */
  lemma IntendedExceptionAccepted(sz: Sizes, req: seq<Byte>, toRead: int, end: Error,
                                  e: seq<Byte>, c: Chunks, r: Chunks, st: Loop)
    requires sz.Valid() && |req| >= 2 && Fits(sz, st) && Arrives(sz, e, c)
    requires req[1] & 0x80 == 0 && |e| == sz.exception
    requires e[0] == req[0] && e[1] == req[1] | 0x80 && st.q == c + r
    ensures Frame(Intended, sz, req, toRead, end, st) == Exchange(e, None, r)
  {
    IntendedExceptionTurn(sz, req, toRead, end, e, c, r, st);
  }

  /**
   * As written: the same exception reply matches neither code at line 92
   * or 100, so the frame accepted is whatever the first read took, and the
   * rest of the reply stays on the wire. The reply is accepted whole only
   * when the first read happened to take all of it.
   */
  lemma AsWrittenExceptionCutShort(sz: Sizes, req: seq<Byte>, toRead: int, end: Error,
                                   e: seq<Byte>, c: Chunks, r: Chunks, st: Loop)
    requires sz.Valid() && |req| >= 2 && Fits(sz, st) && Arrives(sz, e, c)
    requires req[1] & 0x80 == 0 && |e| == sz.exception
    requires e[0] == req[0] && e[1] == req[1] | 0x80 && st.q == c + r
    ensures var k := Cut(sz, c);
      Frame(AsWritten, sz, req, toRead, end, st) == Exchange(e[..k], None, c[Taken(c, sz.min)..] + r)
    ensures Frame(AsWritten, sz, req, toRead, end, st).resp == e <==> Cut(sz, c) == |e|
  {
    FirstChunks(sz, end, e, c, r, st);
  }

  /** Line 77 as written: for every ordinary function code the fail code is 0x00, never the exception code. */
  lemma FailCodeOfOrdinaryFunction(code: Byte)
    requires code & 0x80 == 0
    ensures FailCode(AsWritten, code) == 0
    ensures FailCode(Intended, code) != code && FailCode(Intended, code) != 0
  {
  }
}
