/**
 * The TCP connection as the transport sees it: the bytes still to arrive,
 * the deadline last set on it and the bytes written to it. Read copies
 * into a caller's array as net.Conn.Read does; ReadAtLeast and ReadFull
 * are the loops of io.ReadAtLeast and io.ReadFull over it, each proved to
 * do what the value-level definitions in module Stream say.
 */
module Net {
  import opened Stream

  /** A connection deadline; the zero time.Time means no deadline at all. */
  datatype Deadline = NoDeadline | At(t: nat)

  class Conn {
    var chunks: Chunks
    const end: Error
    var deadline: Deadline
    var written: seq<Byte>

    /** A freshly opened connection on which `incoming` will arrive, then `end`. */
    constructor (incoming: Chunks, end: Error)
      ensures chunks == incoming && this.end == end
      ensures deadline == NoDeadline && written == []
    {
      chunks := incoming;
      this.end := end;
      deadline := NoDeadline;
      written := [];
    }

    /**
     * Read(p) with len(p) == room: the bytes it returns. Where the source
     * passes a slice of its buffer, the model returns the bytes and the
     * caller copies them in (see CopyInto).
     */
    method Read(room: nat) returns (got: seq<Byte>, err: Option<Error>)
      modifies this`chunks
      ensures Reading(got, chunks, err) == Stream.Read(old(chunks), end, room)
    {
      if room == 0 {
        return [], None;
      }
      if chunks == [] {
        return [], Some(end);
      }
      var c := chunks[0];
      if room < |c| {
        got := c[..room];
        chunks := [c[room..]] + chunks[1..];
      } else {
        got := c;
        chunks := chunks[1..];
      }
      err := None;
    }

    /**
     * io.ReadAtLeast(conn, buf[lo:hi], min). The bytes of the successive
     * Reads are copied into buf[lo:] once the loop is over; no other code
     * runs in between, so the buffer ends up as the source leaves it.
     */
    method ReadAtLeast(buf: array<Byte>, lo: nat, hi: nat, min: nat) returns (n: nat, err: Option<Error>)
      requires lo <= hi <= buf.Length
      modifies this`chunks, buf
      ensures var r := Stream.ReadAtLeast(old(chunks), end, hi - lo, min);
        n == |r.got| && err == r.err && chunks == r.rest &&
        buf[..] == Place(old(buf[..]), lo, r.got)
    {
      if hi - lo < min {
        return 0, Some(ShortBuffer);
      }
      var acc;
      acc, err := Collect(hi - lo, min);
      n := |acc|;
      CopyInto(buf, lo, acc);
      if n >= min {
        err := None;
      } else if n > 0 && err == Some(EOF) {
        err := Some(UnexpectedEOF);
      }
    }

    /** The loop of io.ReadAtLeast: `for n < min && err == nil { nn, err = r.Read(buf[n:]); n += nn }` */
    method Collect(room: nat, min: nat) returns (acc: seq<Byte>, err: Option<Error>)
      requires min <= room
      modifies this`chunks
      ensures Reading(acc, chunks, err) == Fill([], old(chunks), end, room, min)
      ensures |acc| <= room
    {
      ghost var want := Fill([], chunks, end, room, min);
      acc := [];
      while |acc| < min
        invariant |acc| <= room
        invariant want == Fill(acc, chunks, end, room - |acc|, Less(min, |acc|))
        decreases Measure(chunks)
      {
        var got, e := Read(room - |acc|);
        if e.Some? {
          return acc, e;
        }
        assert Less(min - |acc|, |got|) == Less(min, |acc| + |got|);
        acc := acc + got;
      }
      err := None;
    }

    /** io.ReadFull(conn, buf[lo:hi]) */
    method ReadFull(buf: array<Byte>, lo: nat, hi: nat) returns (n: nat, err: Option<Error>)
      requires lo <= hi <= buf.Length
      modifies this`chunks, buf
      ensures var r := Stream.ReadFull(old(chunks), end, hi - lo);
        n == |r.got| && err == r.err && chunks == r.rest &&
        buf[..] == Place(old(buf[..]), lo, r.got)
    {
      n, err := ReadAtLeast(buf, lo, hi, hi - lo);
    }

    /** SetDeadline(d); `fault` is the socket layer's answer, which the model cannot see. */
    method SetDeadline(d: Deadline, fault: Option<Error>) returns (err: Option<Error>)
      modifies this`deadline
      ensures err == fault
      ensures deadline == if fault.None? then d else old(deadline)
    {
      err := fault;
      if fault.None? {
        deadline := d;
      }
    }

    /** Write(frame); `fault` is the socket layer's answer. */
    method Write(frame: seq<Byte>, fault: Option<Error>) returns (err: Option<Error>)
      modifies this`written
      ensures err == fault
      ensures written == if fault.None? then old(written) + frame else old(written)
    {
      err := fault;
      if fault.None? {
        written := written + frame;
      }
    }

    /** The drain before a send: whatever arrived in the first k chunks is read and thrown away. */
    method Discard(k: nat)
      modifies this`chunks
      ensures chunks == old(chunks)[if k < |old(chunks)| then k else |old(chunks)|..]
    {
      chunks := chunks[if k < |chunks| then k else |chunks|..];
    }
  }

  /** copy(buf[at:], b) */
  method CopyInto(buf: array<Byte>, at: nat, b: seq<Byte>)
    requires at + |b| <= buf.Length
    modifies buf
    ensures buf[..] == Place(old(buf[..]), at, b)
  {
    var i := 0;
    while i < |b|
      invariant 0 <= i <= |b|
      invariant forall j :: 0 <= j < buf.Length ==>
        buf[j] == if at <= j < at + i then b[j - at] else old(buf[j])
    {
      buf[at + i] := b[i];
      i := i + 1;
    }
    assert buf[..] == Place(old(buf[..]), at, b);
  }
}
