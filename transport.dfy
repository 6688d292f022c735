/**
 * The RTU-over-TCP client handler (RTUOverTCPClientHandler and its
 * rtuTCPTransporter): its configuration, its connection and the time of
 * its last exchange. ReadResponse is the framing loop of readResponse over
 * the fixed buffer `data`, proved to return what Framer.Response defines
 * for the variant it is given (the code as written, or one corrected as
 * README's Findings table says); Send is the exchange around it.
 */
module Transport {
  import opened Stream
  import opened Net
  import opened Framer
  import FramerFacts

  /** The window of the drain before a request: 100 * time.Microsecond, in nanoseconds. */
  const DrainWindow: nat := 100_000

  /** What tcpTransporter.connect gives when there is no connection yet. */
  datatype Dial = Refused(err: Error) | Established(incoming: Chunks, end: Error)

  /**
   * What the world answers during one Send: the outcome of a connect, the
   * clock, how many chunks arrive within the drain window, and the socket
   * layer's answers to SetDeadline and Write. All times are nanoseconds.
   */
  datatype World = World(
    dial: Dial,
    drainClock: nat,
    drainFault: Option<Error>,
    drained: nat,
    clock: nat,
    deadlineFault: Option<Error>,
    writeFault: Option<Error>)

  /** The deadline of an exchange: none when Timeout <= 0, else lastActivity + Timeout (lines 56-59). */
  function DeadlineFor(timeout: int, lastActivity: nat): (d: Deadline)
    ensures d == NoDeadline <==> timeout <= 0
    ensures d.At? ==> d.t - lastActivity == timeout
  {
    if timeout > 0 then At(lastActivity + timeout) else NoDeadline
  }

  /** The chunks left once the first k have been drained. */
  function Drain(q: Chunks, k: nat): (r: Chunks)
    ensures |r| == if k < |q| then |q| - k else 0
    ensures forall i :: 0 <= i < |r| ==> r[i] == q[i + (|q| - |r|)]
  {
    q[if k < |q| then k else |q|..]
  }

  class Handler {
    var address: string
    var timeout: int        // time.Duration
    var idleTimeout: int    // time.Duration
    var conn: Conn?
    var lastActivity: nat   // the zero time.Time is 0

    /**
     * NewRTUOverTCPClientHandler(address); tcpTimeout and tcpIdleTimeout
     * are the defaults of the TCP transport, which is not part of this model.
     */
    constructor (address: string, tcpTimeout: int, tcpIdleTimeout: int)
      ensures this.address == address
      ensures timeout == tcpTimeout && idleTimeout == tcpIdleTimeout
      ensures conn == null && lastActivity == 0
    {
      this.address := address;
      timeout := tcpTimeout;
      idleTimeout := tcpIdleTimeout;
      conn := null;
      lastActivity := 0;
    }

    /**
     * Send(req): connect when there is no connection, drain what is still
     * arriving, stamp the time of activity, set the exchange's deadline,
     * write the request and read the response. A failed connect or
     * SetDeadline returns before anything is written, and a failed Write
     * before anything is read. `arrived` and `sent` are what the connection
     * held before the exchange (nothing, for a new connection).
     */
    method Send(v: Variant, req: seq<Byte>, sz: Sizes, lengthOf: seq<Byte> -> int, w: World) returns (resp: seq<Byte>, err: Option<Error>)
      requires sz.Valid() && |req| >= 2
      modifies this, conn
      ensures conn == null <==> old(conn) == null && w.dial.Refused?
      ensures conn == null ==> err == Some(w.dial.err) && resp == [] && lastActivity == old(lastActivity)
      ensures old(conn) != null ==> conn == old(conn)
      ensures old(conn) == null && conn != null ==> fresh(conn) && conn.end == w.dial.end
      ensures address == old(address) && timeout == old(timeout) && idleTimeout == old(idleTimeout)
      ensures conn != null ==>
        var arrived := if old(conn) != null then old(conn.chunks) else w.dial.incoming;
        var sent := if old(conn) != null then old(conn.written) else [];
        var left := Drain(arrived, w.drained);
        && lastActivity == w.clock
        && (w.deadlineFault.Some? ==>
              err == w.deadlineFault && resp == [] && conn.written == sent && conn.chunks == left)
        && (w.deadlineFault.None? ==> conn.deadline == DeadlineFor(timeout, w.clock))
        && (w.deadlineFault.None? && w.writeFault.Some? ==>
              err == w.writeFault && resp == [] && conn.written == sent && conn.chunks == left)
        && (w.deadlineFault.None? && w.writeFault.None? ==>
              conn.written == sent + req &&
              Exchange(resp, err, conn.chunks) == Response(v, sz, req, lengthOf(req), conn.end, left))
    {
      resp := [];
      if conn == null {
        match w.dial
        case Refused(e) =>
          err := Some(e);
          return;
        case Established(incoming, end) =>
          conn := new Conn(incoming, end);
      }
      var _ := conn.SetDeadline(At(w.drainClock + DrainWindow), w.drainFault);
      conn.Discard(w.drained);
      lastActivity := w.clock;
      err := conn.SetDeadline(DeadlineFor(timeout, lastActivity), w.deadlineFault);
      if err.Some? {
        return;
      }
      err := conn.Write(req, w.writeFault);
      if err.Some? {
        return;
      }
      resp, err := ReadResponse(v, req, sz, lengthOf);
    }

    /**
     * readResponse(req) with calculateResponseLength given as lengthOf, as
     * written (v == AsWritten) or with the corrections of README's Findings.
     * The named result aduResponse is kept as the length of the frame it
     * was last set to, because it shares its bytes with `data`: an error
     * return hands back that many bytes of `data` as it is then. A slice
     * past the end of `data`, which Go answers with a panic, is returned
     * as the error SliceBoundsPanic.
     */
    method ReadResponse(v: Variant, req: seq<Byte>, sz: Sizes, lengthOf: seq<Byte> -> int) returns (resp: seq<Byte>, err: Option<Error>)
      requires conn != null && sz.Valid() && |req| >= 2
      modifies conn`chunks
      ensures Exchange(resp, err, conn.chunks) == Response(v, sz, req, lengthOf(req), conn.end, old(conn.chunks))
      ensures err.None? ==> sz.min <= |resp| <= sz.max && resp[0] == req[0]
      ensures v != AsWritten && conn.end != SliceBoundsPanic ==>
        err != Some(SliceBoundsPanic) &&
        (err.None? ==> IsSuffix(resp + Flatten(conn.chunks), Flatten(old(conn.chunks))))
    {
      var bytesToRead := lengthOf(req);
      var data := new Byte[sz.max](_ => 0);
      assert data[..] == Start(sz, conn.chunks).buf;
      FramerFacts.ResponseEchoesAddress(v, sz, req, bytesToRead, conn.end, conn.chunks);
      if v != AsWritten && conn.end != SliceBoundsPanic {
        FramerFacts.ResetFrameIsFromStream(v, sz, req, bytesToRead, conn.end, Start(sz, conn.chunks));
      }
      resp, err := ReadFrames(v, data, req, sz, bytesToRead);
    }

    /** The loop of readResponse (lines 80-116) over the buffer data, which starts out all zero. */
    method ReadFrames(v: Variant, data: array<Byte>, req: seq<Byte>, sz: Sizes, bytesToRead: int)
      returns (resp: seq<Byte>, err: Option<Error>)
      requires conn != null && sz.Valid() && |req| >= 2 && data.Length == sz.max
      modifies conn`chunks, data
      ensures Exchange(resp, err, conn.chunks) ==
        Frame(v, sz, req, bytesToRead, conn.end, Loop(old(conn.chunks), old(data[..]), 0, None))
    {
      var address := req[0];
      var n: nat := 0;
      var n1: nat := 0;
      var slice: Option<nat> := None;
      ghost var target := Frame(v, sz, req, bytesToRead, conn.end, Loop(conn.chunks, data[..], n1, slice));
      while true
        invariant slice.Some? ==> slice.value <= sz.max
        invariant Frame(v, sz, req, bytesToRead, conn.end, Loop(conn.chunks, data[..], n1, slice)) == target
        decreases Measure(conn.chunks)
      {
        ghost var st := Loop(conn.chunks, data[..], n1, slice);
        n, n1, err := AssembleInto(v, data, req, sz, bytesToRead, n1, slice);
        if err.Some? {
          resp := if slice.Some? then data[..slice.value] else [];
          return;
        }
        if n > data.Length {
          resp, err := [], Some(SliceBoundsPanic);
          return;
        }
        resp := data[..n];
        slice := Some(n);
        if resp[0] == address {
          return;
        }
        assert Iteration(v, sz, req, bytesToRead, conn.end, st) == Again(Loop(conn.chunks, data[..], n1, slice));
      }
    }

    /**
     * Lines 87-106 of one turn of readResponse: the first read into data,
     * then the classification and the top-up. As written n1 is what the
     * turn before left in it; as intended it starts at zero, as if it were
     * declared inside the loop.
     */
    method AssembleInto(v: Variant, data: array<Byte>, req: seq<Byte>, sz: Sizes, bytesToRead: int, n1: nat, ghost slice: Option<nat>)
      returns (n: nat, n1': nat, err: Option<Error>)
      requires conn != null && sz.Valid() && |req| >= 2 && data.Length == sz.max
      requires slice.Some? ==> slice.value <= sz.max
      modifies conn`chunks, data
      ensures var a := Assemble(v, sz, req, bytesToRead, conn.end, Loop(old(conn.chunks), old(data[..]), n1, slice));
        a == if err.Some? then Broken(err.value, data[..], conn.chunks)
             else Candidate(n, data[..], n1', conn.chunks)
    {
      n1' := Carried(v, n1);
      n, err := conn.ReadAtLeast(data, 0, sz.max, sz.min);
      if err.None? {
        n, n1', err := CompleteInto(v, data, req, sz, bytesToRead, n, n1');
      }
    }

    /** Lines 91-106: classify by data[1] and top the frame up, after a first read of n0 bytes. */
    method CompleteInto(v: Variant, data: array<Byte>, req: seq<Byte>, sz: Sizes, bytesToRead: int, n0: nat, n1: nat)
      returns (n: nat, n1': nat, err: Option<Error>)
      requires conn != null && sz.Valid() && |req| >= 2 && data.Length == sz.max && n0 <= sz.max
      modifies conn`chunks, data
      ensures Complete(v, sz, req, bytesToRead, conn.end, old(data[..]), n0, n1, old(conn.chunks)) ==
        if err.Some? then Broken(err.value, data[..], conn.chunks)
        else Candidate(n, data[..], n1', conn.chunks)
    {
      n, n1', err := n0, n1, None;
      if data[1] == req[1] {
        if n < bytesToRead {
          if bytesToRead > sz.min && bytesToRead <= sz.max {
            n, n1', err := TopUpInto(data, n, bytesToRead);
          }
        }
      } else if data[1] == FailCode(v, req[1]) {
        if n < sz.exception {
          n, n1', err := TopUpInto(data, n, sz.exception);
        } else {
          n := n + n1';
        }
      }
    }

    /** `n1, err = io.ReadFull(mb.conn, data[n:upTo]); n += n1` (lines 96-97 and 103-105). */
    method TopUpInto(data: array<Byte>, n0: nat, upTo: nat) returns (n: nat, n1: nat, err: Option<Error>)
      requires conn != null && n0 <= upTo <= data.Length
      modifies conn`chunks, data
      ensures TopUp(old(data[..]), n0, upTo, old(conn.chunks), conn.end) ==
        if err.Some? then Broken(err.value, data[..], conn.chunks)
        else Candidate(n, data[..], n1, conn.chunks)
    {
      n1, err := conn.ReadFull(data, n0, upTo);
      n := n0 + n1;
    }
  }
}
