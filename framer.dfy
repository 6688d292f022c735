/**
 * The RTU-over-TCP response framer (rtuTCPTransporter.readResponse) as the
 * values its loop passes through. One turn of the loop reads at least the
 * minimum frame size into the fixed buffer, classifies the frame by its
 * function byte, tops it up to its expected length, and accepts it when
 * its address byte is the request's; otherwise it discards the frame and
 * reads on. Transport.Handler.ReadResponse runs the same loop over an array
 * and a connection and is proved to produce what Response defines.
 *
 * The framer comes in three variants. AsWritten is the code as it stands:
 * the exception code is taken as `function & 0x80`, and the byte count of
 * the last top-up read survives from one turn to the next. CountReset
 * corrects the second only: the count starts at zero on every turn.
 * Intended corrects both, with `function | 0x80` as the exception code;
 * README's Findings table says why.
 */
module Framer {
  import opened Stream

  /**
   * The size constants the framer is built on: rtuMinSize, rtuMaxSize and
   * rtuExceptionSize. They are defined outside the modelled file; Valid is
   * what the framing code needs of them (byte 1 of the buffer exists, the
   * exception frame fits in the buffer).
   */
  datatype Sizes = Sizes(min: nat, max: nat, exception: nat) {
    predicate Valid() {
      0 < min <= max && 2 <= max && exception <= max
    }
  }

  datatype Variant = AsWritten | CountReset | Intended

  /**
   * The byte 1 the framer takes to mark an exception reply to the function
   * `code`: as written only the high bit of `code` survives, as intended
   * it is `code` with the high bit set.
   */
  function FailCode(v: Variant, code: Byte): (f: Byte)
    ensures v != Intended ==> f & 0x7F == 0 && f & 0x80 == code & 0x80
    ensures v == Intended ==> f & 0x7F == code & 0x7F && f & 0x80 == 0x80
  {
    if v == Intended then code | 0x80 else code & 0x80
  }

  /**
   * The byte count a turn starts with in n1: the count of the previous
   * turn's last top-up read as written, zero once that is corrected.
   */
  function Carried(v: Variant, n1: nat): (c: nat)
    ensures v == AsWritten ==> c == n1
    ensures v != AsWritten ==> c == 0
  {
    if v == AsWritten then n1 else 0
  }

  /**
   * What one turn of the loop starts from: the bytes still to arrive, the
   * contents of the buffer `data`, the counter n1, and the length of the
   * frame the named result aduResponse was last set to (None while it is
   * still nil).
   */
  datatype Loop = Loop(q: Chunks, buf: seq<Byte>, n1: nat, slice: Option<nat>)

  predicate Fits(sz: Sizes, st: Loop) {
    |st.buf| == sz.max && (st.slice.Some? ==> st.slice.value <= sz.max)
  }

  /** The first turn: an all-zero buffer, n1 == 0, aduResponse nil. */
  function Start(sz: Sizes, q: Chunks): (st: Loop)
    ensures Fits(sz, st)
    ensures forall i :: 0 <= i < |st.buf| ==> st.buf[i] == 0
    ensures st.q == q && st.n1 == 0 && st.slice == None
  {
    Loop(q, seq(sz.max, _ => 0), 0, None)
  }

  /**
   * aduResponse as an error return hands it back: nil before any frame was
   * discarded, afterwards the slice data[:k] of a discarded frame, which
   * shares its bytes with the buffer as the failing turn left it.
   */
  function View(buf: seq<Byte>, slice: Option<nat>): (r: seq<Byte>)
    requires slice.Some? ==> slice.value <= |buf|
    ensures slice.None? ==> r == []
    ensures slice.Some? ==> |r| == slice.value && r == buf[..|r|]
  {
    if slice.Some? then buf[..slice.value] else []
  }

  /** A turn's frame before the address check, or the error that ended the turn. */
  datatype Assembled =
    | Candidate(n: nat, buf: seq<Byte>, n1: nat, rest: Chunks)
    | Broken(err: Error, buf: seq<Byte>, rest: Chunks)

  /** The first read of a turn: io.ReadAtLeast(conn, data[:], rtuMinSize). */
  function FirstRead(sz: Sizes, end: Error, st: Loop): (r: Reading)
    ensures r.err.None? <==> sz.min <= sz.max && sz.min <= |Flatten(st.q)|
    ensures r.err.None? ==> sz.min <= |r.got| <= sz.max
  {
    ReadAtLeast(st.q, end, sz.max, sz.min)
  }

  /** The buffer after the first read of a turn. */
  function Staged(sz: Sizes, end: Error, st: Loop): (b: seq<Byte>)
    requires Fits(sz, st)
    ensures |b| == sz.max
  {
    Place(st.buf, 0, FirstRead(sz, end, st).got)
  }

  /** io.ReadFull(conn, data[n:upTo]) and the n, n1 and err it leaves. */
  function TopUp(buf: seq<Byte>, n: nat, upTo: nat, q: Chunks, end: Error): (a: Assembled)
    requires n <= upTo <= |buf|
    ensures |a.buf| == |buf|
    ensures a.Candidate? ==> Measure(a.rest) <= Measure(q) && n <= a.n <= upTo
  {
    var more := ReadFull(q, end, upTo - n);
    var placed := Place(buf, n, more.got);
    if more.err.Some? then Broken(more.err.value, placed, more.rest)
    else Candidate(n + |more.got|, placed, |more.got|, more.rest)
  }

  /**
   * Lines 91-106: the classification by byte 1 of the buffer and the
   * top-up, after a first read of n bytes; n1 is the count the turn starts
   * with and q what is left on the wire.
   */
  function Complete(v: Variant, sz: Sizes, req: seq<Byte>, toRead: int, end: Error,
                    buf: seq<Byte>, n: nat, n1: nat, q: Chunks): (a: Assembled)
    requires sz.Valid() && |req| >= 2 && |buf| == sz.max && n <= sz.max
    ensures |a.buf| == sz.max
    ensures a.Candidate? ==> Measure(a.rest) <= Measure(q) && n <= a.n
  {
    if buf[1] == req[1] then
      if n < toRead && sz.min < toRead <= sz.max then TopUp(buf, n, toRead, q, end)
      else Candidate(n, buf, n1, q)
    else if buf[1] == FailCode(v, req[1]) then
      if n < sz.exception then TopUp(buf, n, sz.exception, q, end)
      else Candidate(n + n1, buf, n1, q)
    else Candidate(n, buf, n1, q)
  }

  /** Lines 87-106 of one turn: the first read, then the classification and the top-up. */
  function Assemble(v: Variant, sz: Sizes, req: seq<Byte>, toRead: int, end: Error, st: Loop): (a: Assembled)
    requires sz.Valid() && |req| >= 2 && Fits(sz, st)
    ensures |a.buf| == sz.max
    ensures a.Candidate? ==> Measure(a.rest) < Measure(st.q) && sz.min <= a.n
  {
    var first := FirstRead(sz, end, st);
    if first.err.Some? then Broken(first.err.value, Staged(sz, end, st), first.rest)
    else Complete(v, sz, req, toRead, end, Staged(sz, end, st), |first.got|, Carried(v, st.n1), first.rest)
  }

  /** How an exchange ends: the frame handed back, the error, and what is left on the wire. */
  datatype Exchange = Exchange(resp: seq<Byte>, err: Option<Error>, rest: Chunks)

  datatype Turn = Done(x: Exchange) | Again(next: Loop)

  /**
   * One turn of the loop (lines 87-115). A frame longer than the buffer,
   * which only the carried count can produce, makes `data[:n]` panic.
   */
  function Iteration(v: Variant, sz: Sizes, req: seq<Byte>, toRead: int, end: Error, st: Loop): (t: Turn)
    requires sz.Valid() && |req| >= 2 && Fits(sz, st)
    ensures t.Again? ==> Fits(sz, t.next) && Measure(t.next.q) < Measure(st.q)
  {
    match Assemble(v, sz, req, toRead, end, st)
    case Broken(e, buf, rest) => Done(Exchange(View(buf, st.slice), Some(e), rest))
    case Candidate(n, buf, n1, rest) =>
      if n > sz.max then Done(Exchange([], Some(SliceBoundsPanic), rest))
      else if buf[0] == req[0] then Done(Exchange(buf[..n], None, rest))
      else Again(Loop(rest, buf, n1, Some(n)))
  }

  /** The loop from the turn st on, until a frame is accepted or an error ends it. */
  function Frame(v: Variant, sz: Sizes, req: seq<Byte>, toRead: int, end: Error, st: Loop): (x: Exchange)
    requires sz.Valid() && |req| >= 2 && Fits(sz, st)
    ensures |x.resp| <= sz.max
    decreases Measure(st.q)
  {
    match Iteration(v, sz, req, toRead, end, st)
    case Done(x) => x
    case Again(next) => Frame(v, sz, req, toRead, end, next)
  }

  /**
   * readResponse(req) on a connection that will deliver q and then fail
   * with end, given calculateResponseLength(req) == toRead.
   */
  function Response(v: Variant, sz: Sizes, req: seq<Byte>, toRead: int, end: Error, q: Chunks): (x: Exchange)
    requires sz.Valid() && |req| >= 2
    ensures |x.resp| <= sz.max
  {
    Frame(v, sz, req, toRead, end, Start(sz, q))
  }
}
