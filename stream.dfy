/**
 * The byte stream a TCP peer delivers, and the reading helpers of Go's io
 * package (Read on a connection, io.ReadAtLeast, io.ReadFull) as functions
 * on values. The connection's incoming data is a queue of chunks: one Read
 * returns bytes from the front chunk only, as a socket returns whatever
 * has arrived, and once the queue is empty every Read fails with the error
 * that ends the stream: any error of the socket layer, such as end of file
 * or the deadline firing.
 */
module Stream {

  type Byte = bv8

  datatype Option<T> = None | Some(value: T)

  /** The errors a read or an exchange can end with. */
  datatype Error =
    | EOF                    // io.EOF: the peer closed the stream
    | UnexpectedEOF          // io.ErrUnexpectedEOF: EOF in the middle of a read
    | ShortBuffer            // io.ErrShortBuffer: the buffer is smaller than the minimum asked for
    | DeadlineExceeded       // the connection's deadline fired
    | NetFailure(code: nat)  // any other failure of the socket layer
    | SliceBoundsPanic       // the runtime panic of slicing an array past its end

  /** What is still to arrive on the connection, chunk by chunk. */
  type Chunks = seq<seq<Byte>>

  function Flatten(q: Chunks): seq<Byte> {
    if q == [] then [] else q[0] + Flatten(q[1..])
  }

  /** Bytes still to arrive plus chunks still to arrive; every Read lowers it. */
  function Measure(q: Chunks): nat {
    |Flatten(q)| + |q|
  }

  lemma FlattenCons(c: seq<Byte>, t: Chunks)
    ensures Flatten([c] + t) == c + Flatten(t)
  {
    assert ([c] + t)[1..] == t;
  }

  /** The bytes one or more reads returned, what is left on the wire, and the error, if any. */
  datatype Reading = Reading(got: seq<Byte>, rest: Chunks, err: Option<Error>)

  /**
   * One call Read(p) with len(p) == room: up to room bytes of the front
   * chunk; the part of the chunk that did not fit stays at the front.
   */
  function Read(q: Chunks, end: Error, room: nat): (r: Reading)
    ensures |r.got| <= room
    ensures r.err.Some? <==> room > 0 && q == []
    ensures room > 0 && q != [] ==> Measure(r.rest) < Measure(q)
  {
    if room == 0 then Reading([], q, None)
    else if q == [] then Reading([], [], Some(end))
    else if room < |q[0]| then
      var c := q[0];
      FlattenCons(c[room..], q[1..]);
      assert c == c[..room] + c[room..];
      Reading(c[..room], [c[room..]] + q[1..], None)
    else
      Reading(q[0], q[1..], None)
  }

  lemma ReadFacts(q: Chunks, end: Error, room: nat)
    ensures var r := Read(q, end, room);
      && Flatten(q) == r.got + Flatten(r.rest)
      && (r.err.Some? ==> r.err == Some(end) && r.got == [] && r.rest == [])
      && Measure(r.rest) + |r.got| <= Measure(q)
  {
    if room > 0 && q != [] && room < |q[0]| {
      var c := q[0];
      FlattenCons(c[room..], q[1..]);
      assert c == c[..room] + c[room..];
    }
  }

  /** What is still needed after `got` more bytes came in. */
  function Less(need: nat, got: nat): nat {
    if got < need then need - got else 0
  }

  /**
   * The loop inside io.ReadAtLeast: with `acc` read so far, keep calling
   * Read on what is left of a buffer of `room` bytes until `need` more
   * bytes are in or a Read fails. It fails exactly when fewer than `need`
   * bytes arrive in all.
   */
  function Fill(acc: seq<Byte>, q: Chunks, end: Error, room: nat, need: nat): (r: Reading)
    requires need <= room
    ensures r.err.Some? ==> r.err == Some(end)
    decreases Measure(q)
  {
    if need == 0 then Reading(acc, q, None)
    else
      var s := Read(q, end, room);
      if s.err.Some? then Reading(acc, s.rest, s.err)
      else Fill(acc + s.got, s.rest, end, room - |s.got|, Less(need, |s.got|))
  }

  /** What Fill does: it takes a prefix of the stream, and fails exactly when the stream is too short. */
  lemma {:induction false} FillFacts(acc: seq<Byte>, q: Chunks, end: Error, room: nat, need: nat)
    requires need <= room
    ensures var r := Fill(acc, q, end, room, need);
      && acc + Flatten(q) == r.got + Flatten(r.rest)
      && |acc| <= |r.got| <= |acc| + room
      && (r.err.None? <==> need <= |Flatten(q)|)
      && (r.err.None? ==> |acc| + need <= |r.got|)
      && (r.err.Some? ==> r.err == Some(end) && r.rest == [])
      && Measure(r.rest) + |r.got| <= Measure(q) + |acc|
    decreases Measure(q)
  {
    if need > 0 {
      var s := Read(q, end, room);
      ReadFacts(q, end, room);
      if s.err.None? {
        FillFacts(acc + s.got, s.rest, end, room - |s.got|, Less(need, |s.got|));
        assert acc + Flatten(q) == (acc + s.got) + Flatten(s.rest);
      }
    }
  }

  /**
   * io.ReadAtLeast(r, buf, min) with len(buf) == room: ErrShortBuffer when
   * the buffer cannot hold min bytes; success once min bytes are in; EOF
   * after some bytes becomes ErrUnexpectedEOF.
   */
  function ReadAtLeast(q: Chunks, end: Error, room: nat, min: nat): (r: Reading)
    ensures Flatten(q) == r.got + Flatten(r.rest)
    ensures |r.got| <= room
    ensures Measure(r.rest) + |r.got| <= Measure(q)
    ensures r.err.None? <==> min <= room && min <= |Flatten(q)|
    ensures r.err.None? ==> min <= |r.got|
    ensures room < min ==> r == Reading([], q, Some(ShortBuffer))
    ensures min <= room && r.err.Some? ==>
      r.got == Flatten(q) && r.rest == [] &&
      r.err == Some(if r.got != [] && end == EOF then UnexpectedEOF else end)
  {
    if room < min then Reading([], q, Some(ShortBuffer))
    else
      var r := Fill([], q, end, room, min);
      FillFacts([], q, end, room, min);
      if min <= |r.got| then Reading(r.got, r.rest, None)
      else if |r.got| > 0 && r.err == Some(EOF) then Reading(r.got, r.rest, Some(UnexpectedEOF))
      else r
  }

  /**
   * io.ReadFull(r, buf) with len(buf) == size: exactly the next size bytes
   * of the stream, or everything that arrived and an error.
   */
  function ReadFull(q: Chunks, end: Error, size: nat): (r: Reading)
    ensures Flatten(q) == r.got + Flatten(r.rest)
    ensures Measure(r.rest) + |r.got| <= Measure(q)
    ensures r.err.None? <==> size <= |Flatten(q)|
    ensures r.err.None? ==> r.got == Flatten(q)[..size]
    ensures r.err.Some? ==>
      r.got == Flatten(q) && r.rest == [] &&
      r.err == Some(if r.got != [] && end == EOF then UnexpectedEOF else end)
  {
    ReadAtLeast(q, end, size, size)
  }

  /** A chunk that holds at least min bytes and fits the room is read whole by io.ReadAtLeast, and nothing after it is touched. */
  lemma ReadChunk(c: seq<Byte>, t: Chunks, end: Error, room: nat, min: nat)
    requires 0 < min <= |c| <= room
    ensures ReadAtLeast([c] + t, end, room, min) == Reading(c, t, None)
  {
    var q := [c] + t;
    assert q[0] == c && q[1..] == t;
    assert Read(q, end, room) == Reading(c, t, None);
    assert Fill([], q, end, room, min) == Fill(c, t, end, room - |c|, 0);
  }

  /** Every chunk holds at least one byte: a Read that succeeds returns some bytes. */
  predicate Solid(q: Chunks) {
    forall i :: 0 <= i < |q| ==> q[i] != []
  }

  /** How many front chunks of q the reads of io.ReadAtLeast take to gather need bytes. */
  function Taken(q: Chunks, need: nat): (j: nat)
    ensures j <= |q|
  {
    if need == 0 || q == [] then 0 else 1 + Taken(q[1..], Less(need, |q[0]|))
  }

  lemma {:induction false} FlattenSplit(q: Chunks, j: nat)
    requires j <= |q|
    ensures Flatten(q) == Flatten(q[..j]) + Flatten(q[j..])
    decreases j
  {
    if j > 0 {
      FlattenSplit(q[1..], j - 1);
      assert q[..j] == [q[0]] + q[1..][..j - 1];
      assert q[j..] == q[1..][j - 1..];
      FlattenCons(q[0], q[1..][..j - 1]);
    } else {
      assert q[..j] == [] && q[j..] == q;
    }
  }

  /** A queue of non-empty chunks that holds no bytes holds no chunks. */
  lemma SolidEmpty(q: Chunks)
    requires Solid(q) && Flatten(q) == []
    ensures q == []
  {
  }

  /**
   * The loop of io.ReadAtLeast on a queue whose first chunks c hold enough
   * bytes and fit the room: it takes whole chunks of c, Taken(c, need) of
   * them, and stops on the first chunk boundary with need bytes in.
   */
  lemma {:induction false} FillWhole(acc: seq<Byte>, c: Chunks, t: Chunks, end: Error, room: nat, need: nat)
    requires Solid(c) && need <= |Flatten(c)| <= room
    ensures var j := Taken(c, need);
      && need <= |Flatten(c[..j])|
      && Fill(acc, c + t, end, room, need) == Reading(acc + Flatten(c[..j]), c[j..] + t, None)
    decreases |c|
  {
    var j := Taken(c, need);
    if need == 0 {
      assert c[..j] == [] && c[j..] == c && acc + [] == acc;
    } else {
      ReadFront(c, t, end, room);
      var need' := Less(need, |c[0]|);
      FillWhole(acc + c[0], c[1..], t, end, room - |c[0]|, need');
      TakenFront(c, need);
      assert acc + c[0] + Flatten(c[1..][..Taken(c[1..], need')]) == acc + Flatten(c[..j]);
    }
  }

  /** The first Read of such a loop takes the whole front chunk. */
  lemma ReadFront(c: Chunks, t: Chunks, end: Error, room: nat)
    requires Solid(c) && 0 < |Flatten(c)| <= room
    ensures c != [] && Flatten(c) == c[0] + Flatten(c[1..]) && Solid(c[1..])
    ensures Read(c + t, end, room) == Reading(c[0], c[1..] + t, None)
  {
    assert c != [];
    assert Flatten(c) == c[0] + Flatten(c[1..]);
    assert 0 < |c[0]| <= room;
    TailOfAppend(c, t);
    assert forall i :: 0 <= i < |c[1..]| ==> c[1..][i] == c[i + 1];
  }

  lemma TailOfAppend(c: Chunks, t: Chunks)
    requires c != []
    ensures (c + t)[0] == c[0] && (c + t)[1..] == c[1..] + t
  {
  }

  /** The chunks Taken counts: the front chunk, then those the rest of the need takes. */
  lemma TakenFront(c: Chunks, need: nat)
    requires c != [] && need > 0
    ensures var j' := Taken(c[1..], Less(need, |c[0]|));
      && Taken(c, need) == 1 + j'
      && Flatten(c[..1 + j']) == c[0] + Flatten(c[1..][..j'])
      && c[1 + j'..] == c[1..][j'..]
  {
    var j' := Taken(c[1..], Less(need, |c[0]|));
    assert c[..1 + j'] == [c[0]] + c[1..][..j'];
    FlattenCons(c[0], c[1..][..j']);
  }

  /** io.ReadAtLeast on such a queue returns exactly the chunks it took. */
  lemma ReadWhole(c: Chunks, t: Chunks, end: Error, room: nat, min: nat)
    requires Solid(c) && min <= |Flatten(c)| <= room
    ensures var j := Taken(c, min);
      && min <= |Flatten(c[..j])|
      && ReadAtLeast(c + t, end, room, min) == Reading(Flatten(c[..j]), c[j..] + t, None)
  {
    FillWhole([], c, t, end, room, min);
    assert [] + Flatten(c[..Taken(c, min)]) == Flatten(c[..Taken(c, min)]);
  }

  /** io.ReadFull for exactly the bytes of the non-empty chunks c takes all of c and nothing after it. */
  lemma ReadFullWhole(c: Chunks, t: Chunks, end: Error)
    requires Solid(c)
    ensures ReadFull(c + t, end, |Flatten(c)|) == Reading(Flatten(c), t, None)
  {
    var n := |Flatten(c)|;
    ReadWhole(c, t, end, n, n);
    var j := Taken(c, n);
    FlattenSplit(c, j);
    SolidEmpty(c[j..]);
    assert c[..j] == c;
  }

  /** The buffer s after the bytes b were copied into it at offset at. */
  function Place(s: seq<Byte>, at: nat, b: seq<Byte>): (r: seq<Byte>)
    requires at + |b| <= |s|
    ensures |r| == |s|
  {
    seq(|s|, i requires 0 <= i < |s| => if at <= i < at + |b| then b[i - at] else s[i])
  }

  /** One byte of the buffer after the copy. */
  lemma PlaceAt(s: seq<Byte>, at: nat, b: seq<Byte>, i: nat)
    requires at + |b| <= |s| && i < |s|
    ensures Place(s, at, b)[i] == if at <= i < at + |b| then b[i - at] else s[i]
  {
  }

  /** The bytes copied in are where they were copied to, and the parts before and after them are untouched. */
  lemma PlaceSlices(s: seq<Byte>, at: nat, b: seq<Byte>)
    requires at + |b| <= |s|
    ensures Place(s, at, b)[at..at + |b|] == b
    ensures Place(s, at, b)[..at] == s[..at]
    ensures Place(s, at, b)[at + |b|..] == s[at + |b|..]
  {
    var r := Place(s, at, b);
    forall i | 0 <= i < |b| ensures r[at..at + |b|][i] == b[i] { }
    forall i | 0 <= i < at ensures r[..at][i] == s[i] { }
    var after, before := r[at + |b|..], s[at + |b|..];
    forall i | 0 <= i < |after| ensures after[i] == before[i] { }
  }

  /** a is what remains of b once some prefix of b has been taken. */
  predicate IsSuffix(a: seq<Byte>, b: seq<Byte>) {
    |a| <= |b| && b[|b| - |a|..] == a
  }

  lemma SuffixOfSplit(p: seq<Byte>, a: seq<Byte>)
    ensures IsSuffix(a, p + a)
  {
    assert (p + a)[|p|..] == a;
  }

  lemma SuffixTransitive(a: seq<Byte>, b: seq<Byte>, c: seq<Byte>)
    requires IsSuffix(a, b) && IsSuffix(b, c)
    ensures IsSuffix(a, c)
  {
    assert c[|c| - |a|..] == c[|c| - |b|..][|b| - |a|..];
  }
}
