# RTU over TCP: response framer and exchange

This project models the Modbus RTU-over-TCP client transport of the `modbus`
Go package (`rtu_over_tcp_client.go`) and proves properties of the model.
An RTU frame has no length field. So the transport works out where a reply
ends from what it reads:

- it reads at least the minimum frame size into a fixed buffer;
- byte 1 tells a normal reply from an exception reply;
- the frame is topped up to the length predicted for the request, or to the
  fixed exception length;
- the frame is accepted only when byte 0 is the address the request went to;
- other frames are dropped and reading continues.

The model has six modules:

- `Stream` (stream.dfy) holds bytes, errors and the incoming data as a queue
  of chunks. It defines `Read`, `io.ReadAtLeast` and `io.ReadFull` as
  functions on values, and proves how they take whole chunks off the queue.
- `Net` (net.dfy) has the class `Conn`. This is the connection: the chunks
  still to arrive, its deadline and the bytes written to it. Its
  `ReadAtLeast` and `ReadFull` methods run the read loop of `io.ReadAtLeast`
  (`Collect`) on the connection, gathering the bytes in a sequence, and then
  copy them into the caller's `array` (`CopyInto`); both steps are proved
  equal to the functions of `Stream`.
- `Framer` (framer.dfy) defines the framing loop as values. `Assemble` is one
  turn up to the address check, `Iteration` is one whole turn, `Frame` is the
  loop from a given turn on, and `Response` is the loop from the start.
  There are three variants of the loop:
  - `AsWritten` is the code as it stands;
  - `CountReset` carries only the correction of line 105 under "Findings";
  - `Intended` carries both corrections under "Findings".
- `FramerFacts` and `Replies` (framer_facts.dfy) hold the lemmas about the
  framer.
- `Findings` (findings.dfy) holds concrete exchanges on which the variants
  differ, and the all-streams property the correction of line 105 restores
  at the real sizes.
- `Transport` (transport.dfy) has the class `Handler`. Its constructor is
  `NewRTUOverTCPClientHandler`. `Send` is the exchange. `ReadResponse` is the
  framing loop: a `while` loop that overwrites the fixed buffer `data` in
  place and carries `n1` and `aduResponse` across turns. It is proved to
  return exactly what `Framer.Response` defines, for whichever variant it is
  given.

What the world decides is a parameter:

- the outcome of a connect;
- the clock;
- how many chunks arrive during the drain;
- the answers of the socket layer to `SetDeadline` and `Write`;
- the sizes `rtuMinSize`, `rtuMaxSize` and `rtuExceptionSize`;
- `calculateResponseLength`;
- the defaults `tcpTimeout` and `tcpIdleTimeout`.

The connection delivers its chunks and then fails with one error, `end`,
which may be any error of the socket layer (end of file, the deadline
firing, a network failure). A connection that neither delivers nor fails is
not modelled; see "Left out".

Three points where the code does something other than one would expect,
and the model follows the code:

- The MODBUS Application Protocol Specification V1.1b3 (section 7,
  "MODBUS Exception Responses") marks an exception reply by the function
  code with its high bit set, and the comment at line 101 says an error
  reply is 5 bytes long. The code tests for `function & 0x80` (line 77),
  which is 0x00 for every ordinary function code, so such a reply takes
  neither branch. The Findings table shows the difference.
- The code tops the frame up only when `rtuMinSize < bytesToRead <= rtuMaxSize`
  (line 95); a predicted length equal to `rtuMinSize` is never topped up.
  The model follows the code.
- The code returns its named result `aduResponse` with every error. After a
  dropped frame, that result is the slice `data[:n]` of the dropped frame,
  which shares its bytes with the buffer that later reads overwrite. The
  model returns those bytes (`Framer.View`).

## Model

| member | source | states |
|---|---|---|
| Stream.Read | rtu_over_tcp_client.go:87 | one `Read` returns at most `len(buf)` bytes; it fails exactly when the buffer has room and nothing is left to arrive; a read with room on a non-empty queue shrinks the queue |
| Stream.ReadFacts | rtu_over_tcp_client.go:87 | the bytes a `Read` returns, followed by what is left, are the stream as it was; a failed `Read` returns nothing and fails with the stream's ending error |
| Stream.Fill | rtu_over_tcp_client.go:87 | the loop inside `io.ReadAtLeast` only ever fails with the error that ends the stream |
| Stream.FillFacts | rtu_over_tcp_client.go:87 | the loop inside `io.ReadAtLeast` takes a prefix of the stream that fits the buffer; it fails exactly when fewer bytes than still needed arrive, and then it has taken all of them |
| Stream.ReadAtLeast | rtu_over_tcp_client.go:87-90 | `io.ReadAtLeast`: `ErrShortBuffer` when the buffer is smaller than the minimum; success exactly when at least the minimum arrives, with at least that many bytes; otherwise everything that arrived, and EOF after some bytes becomes `ErrUnexpectedEOF` |
| Stream.ReadFull | rtu_over_tcp_client.go:96 | `io.ReadFull`: success exactly when `len(buf)` bytes arrive, and then the result is exactly the next `len(buf)` bytes of the stream; otherwise an error with all the bytes that arrived |
| Stream.ReadChunk | rtu_over_tcp_client.go:87 | a chunk that holds at least the minimum and fits the buffer is read whole, and nothing after it is touched |
| Stream.Taken | rtu_over_tcp_client.go:87 | the number of front chunks the reads of `io.ReadAtLeast` take never exceeds the chunks queued |
| Stream.FillWhole | rtu_over_tcp_client.go:87 | on a queue whose front chunks hold enough bytes and fit the buffer, the read loop takes whole chunks and stops on the first chunk boundary with the minimum in, leaving every later chunk queued |
| Stream.ReadWhole | rtu_over_tcp_client.go:87 | `io.ReadAtLeast` on such a queue succeeds with exactly the whole chunks it took |
| Stream.ReadFullWhole | rtu_over_tcp_client.go:96 | `io.ReadFull` asked for exactly the bytes of some front chunks takes exactly those chunks and nothing after them |
| Stream.Place | rtu_over_tcp_client.go:96 | copying into a buffer keeps its length |
| Stream.PlaceSlices | rtu_over_tcp_client.go:96 | after the copy, `data[at:at+len(b)]` is `b`, and `data[:at]` and `data[at+len(b):]` are unchanged |
| Net.Conn.constructor | rtu_over_tcp_client.go:44 | a new connection holds the data still to arrive, has no deadline and has nothing written |
| Net.Conn.Read | rtu_over_tcp_client.go:87 | reading from a connection returns what `Stream.Read` defines and leaves the rest queued |
| Net.Conn.Collect | rtu_over_tcp_client.go:87 | the read loop of `io.ReadAtLeast` over the connection, which stops at the first failed `Read`, ends in the state `Stream.Fill` defines |
| Net.Conn.ReadAtLeast | rtu_over_tcp_client.go:87 | `io.ReadAtLeast(conn, buf[lo:hi], min)`: count, error and queue are as `Stream.ReadAtLeast` says, and the bytes land in `buf[lo:]` with the rest of `buf` unchanged |
| Net.Conn.ReadFull | rtu_over_tcp_client.go:96-97 | `io.ReadFull(conn, buf[lo:hi])`: as `Stream.ReadFull` says, with the bytes in `buf[lo:]` |
| Net.CopyInto | rtu_over_tcp_client.go:96 | `copy(buf[at:], b)` leaves the array as `Stream.Place` describes |
| Net.Conn.SetDeadline | rtu_over_tcp_client.go:60-62 | on success the deadline is the one set; on failure the error is returned and the deadline is unchanged |
| Net.Conn.Write | rtu_over_tcp_client.go:66-68 | on success the frame is appended to what was written; on failure nothing is written |
| Net.Conn.Discard | rtu_over_tcp_client.go:49-50 | the drain removes the chunks that arrive within its window and nothing else |
| Framer.FailCode | rtu_over_tcp_client.go:77 | as written (and with only the count reset) `functionFail` keeps only the high bit of the function code; as intended it is the function code with the high bit set |
| Framer.Carried | rtu_over_tcp_client.go:81-105 | as written a turn starts with the `n1` of the turn before, because `n1` is declared outside the loop; once corrected it starts at zero |
| Framer.Start | rtu_over_tcp_client.go:80-82 | the loop starts with a buffer of `rtuMaxSize` zero bytes, `n1 == 0` and `aduResponse` nil |
| Framer.View | rtu_over_tcp_client.go:88-89 | an error return hands back nothing before any frame was dropped, and afterwards the first `n` bytes of the buffer as it then is |
| Framer.FirstRead | rtu_over_tcp_client.go:87-90 | the first read of a turn succeeds exactly when `rtuMinSize` fits the buffer and at least that many bytes arrive, and then it holds between `rtuMinSize` and `rtuMaxSize` bytes |
| Framer.Staged | rtu_over_tcp_client.go:87 | the first read leaves the buffer at its full size |
| Framer.TopUp | rtu_over_tcp_client.go:96-97 | a top-up to `upTo` grows the frame to at most `upTo` bytes and takes no more than is queued |
| Framer.Complete | rtu_over_tcp_client.go:91-106 | classification and top-up never shrink the frame nor add to the queue |
| Framer.Assemble | rtu_over_tcp_client.go:87-106 | a turn that yields a frame consumes part of the stream, and the frame holds at least `rtuMinSize` bytes |
| Framer.Iteration | rtu_over_tcp_client.go:84-116 | a turn that drops its frame leaves a smaller stream, so the loop ends |
| Framer.Frame | rtu_over_tcp_client.go:84-116 | whatever way the loop ends, the bytes it hands back never exceed the buffer |
| Framer.Response | rtu_over_tcp_client.go:74-117 | `readResponse` never hands back more than `rtuMaxSize` bytes |
| Transport.DeadlineFor | rtu_over_tcp_client.go:56-59 | the deadline is the zero time exactly when `Timeout <= 0`; otherwise it lies `Timeout` after `lastActivity` |
| Transport.Drain | rtu_over_tcp_client.go:49-50 | the drain leaves a suffix of the queue: everything after the first `k` chunks |
| FramerFacts.FirstReadFacts | rtu_over_tcp_client.go:87-90 | the first read never fails for lack of room; it fails exactly when fewer than `rtuMinSize` bytes arrive, and then with the stream's error or `ErrUnexpectedEOF`; its bytes start the buffer |
| FramerFacts.TopUpFacts | rtu_over_tcp_client.go:96-97 | a top-up succeeds exactly when enough bytes arrive; it then places exactly the next `upTo - n` bytes at `data[n:upTo]`, sets `n == upTo` and `n1 == upTo - n`, and leaves `data[:n]` alone; otherwise it fails and nothing is left queued |
| FramerFacts.FirstReadFailure | rtu_over_tcp_client.go:87-90 | when the first read fails, the loop ends with that error and the old `aduResponse` |
| FramerFacts.ShortStreamFails | rtu_over_tcp_client.go:87-90 | if fewer than `rtuMinSize` bytes arrive before the stream fails, the result is an error and no frame |
| FramerFacts.NormalReplyTopUp | rtu_over_tcp_client.go:92-98 | on the normal path with `n < bytesToRead` and `rtuMinSize < bytesToRead <= rtuMaxSize`: a frame results exactly when enough bytes arrive; it is exactly `bytesToRead` long and starts with the `n` bytes of the first read; a short stream is an error |
| FramerFacts.NormalReplyAsRead | rtu_over_tcp_client.go:94-95 | on the normal path with no top-up due, nothing more is read, and the frame is the bytes of the first read |
| FramerFacts.ExceptionReplyTopUp | rtu_over_tcp_client.go:100-104 | on the fail path with `n < rtuExceptionSize`: a frame results exactly when enough bytes arrive; it is exactly `rtuExceptionSize` long, with `n1 == rtuExceptionSize - n`; a short stream is an error |
| FramerFacts.ExceptionReplyAsRead | rtu_over_tcp_client.go:102-105 | on the fail path with no read, as written the old `n1` is still added to `n`; with the count reset the frame is the bytes of the first read |
| FramerFacts.UnclassifiedReply | rtu_over_tcp_client.go:91-106 | when byte 1 matches neither code, nothing more is read, and the frame is the bytes of the first read |
| FramerFacts.TopUpConsumesPrefix | rtu_over_tcp_client.go:96 | a top-up reads from the front of what is queued |
| FramerFacts.CompleteConsumesPrefix | rtu_over_tcp_client.go:91-106 | classification and top-up read from the front of what the first read left |
| FramerFacts.AssembleConsumesPrefix | rtu_over_tcp_client.go:84-106 | every turn reads from the front of the stream, and a turn that yields a frame consumes at least `rtuMinSize` bytes |
| FramerFacts.MismatchedFrameSkipped | rtu_over_tcp_client.go:113-116 | a frame with the wrong address is never returned; the next turn starts after at least `rtuMinSize` consumed bytes that are not read again; the outcome is what the loop gives from that next turn |
| FramerFacts.AcceptedEchoesAddress | rtu_over_tcp_client.go:108-115 | the only error-free exit is the address match: an accepted frame has `aduResponse[0] == aduRequest[0]` and holds between `rtuMinSize` and `rtuMaxSize` bytes; every exchange reads the stream from its front |
| FramerFacts.TurnEchoesAddress | rtu_over_tcp_client.go:108-115 | a single turn ends without an error only on the address match, with a frame of `rtuMinSize` to `rtuMaxSize` bytes, and both a finished and a repeated turn leave a suffix of the stream queued |
| FramerFacts.ResponseEchoesAddress | rtu_over_tcp_client.go:74-117 | `readResponse` succeeds only with a frame of `rtuMinSize` to `rtuMaxSize` bytes whose byte 0 is the request's address |
| FramerFacts.TopUpIsRead | rtu_over_tcp_client.go:96-97 | after a successful top-up, the frame followed by the queue is exactly what was there before |
| FramerFacts.ResetCandidateIsRead | rtu_over_tcp_client.go:87-106 | with the count reset on every turn, a turn's frame is exactly the bytes the turn took off the wire, and it fits the buffer |
| FramerFacts.BrokenTurnError | rtu_over_tcp_client.go:87-110 | a turn that breaks off fails with the stream's error or `ErrUnexpectedEOF` |
| FramerFacts.ResetFrameIsFromStream | rtu_over_tcp_client.go:84-116 | with the count reset on every turn (with or without the fail-code correction) the framer never slices past its buffer; an accepted frame, followed by everything still queued, is a suffix of the stream, so no byte is invented or read twice |
| FramerFacts.ResetTurnIsFromStream | rtu_over_tcp_client.go:87-115 | with the count reset, a single turn never slices past its buffer; a frame it accepts, followed by what is still queued, is a suffix of the stream, and a frame it skips leaves a suffix queued |
| Replies.FirstChunks | rtu_over_tcp_client.go:87 | the first read of a turn takes whole chunks of a reply, at least `rtuMinSize` and at most all of its bytes, and leaves the reply's remaining chunks queued in front of what follows |
| Replies.LastChunks | rtu_over_tcp_client.go:96-97 | a top-up for exactly the reply's remaining bytes takes its remaining chunks, completes the reply in the buffer and leaves what follows untouched |
| Replies.NormalTurn | rtu_over_tcp_client.go:87-98 | a reply to the request's function with the predicted length, delivered in any chunks that end with it, yields exactly that reply as the frame, in every variant, and leaves the rest of the stream queued |
| Replies.NormalReplyAccepted | rtu_over_tcp_client.go:84-115 | a well-formed normal reply of the predicted length from the right device, however it is chunked, is accepted unchanged |
| Replies.StrayReplySkipped | rtu_over_tcp_client.go:113-116 | a normal reply from another device, queued before the awaited one, is dropped, and the awaited reply is accepted unchanged, however either is chunked |
| Replies.IntendedExceptionTurn | rtu_over_tcp_client.go:100-105 | as intended, an exception reply of `rtuExceptionSize` bytes, however it is chunked, yields exactly that reply as the frame |
| Replies.IntendedExceptionAccepted | rtu_over_tcp_client.go:84-115 | as intended, an exception reply from the right device, however it is chunked, is accepted unchanged, whatever length was predicted |
| Replies.AsWrittenExceptionCutShort | rtu_over_tcp_client.go:77 | as written, an exception reply takes neither branch: the frame accepted is exactly what the first read took and the rest of the reply stays queued, so the reply is accepted whole only when the first read took all of it |
| Replies.FailCodeOfOrdinaryFunction | rtu_over_tcp_client.go:77 | for every function code below 0x80, `functionFail` is 0x00 as written and the exception code as intended |
| Findings.ExceptionReplyTruncated | rtu_over_tcp_client.go:77 | as written, the exception reply `01 83 02 AA BB`, delivered as 4 + 1 bytes, is accepted as `01 83 02 AA` |
| Findings.ExceptionReplyWhole | rtu_over_tcp_client.go:77 | as intended, the same delivery yields `01 83 02 AA BB` |
| Findings.StaleCountAddsUnreadByte | rtu_over_tcp_client.go:105 | as written, a leftover `n1` grows the accepted frame by a zero byte that never arrived |
| Findings.NoUnreadBytesOnceReset | rtu_over_tcp_client.go:105 | with the count reset on every turn, with the real sizes and on every stream, every accepted frame is a piece of the stream and the slice never panics |
| Transport.Handler.constructor | rtu_over_tcp_client.go:19-25 | a new handler has the given address, `Timeout == tcpTimeout`, `IdleTimeout == tcpIdleTimeout`, no connection and a zero `lastActivity` |
| Transport.Handler.ReadResponse | rtu_over_tcp_client.go:74-117 | the loop over the fixed buffer returns exactly what `Framer.Response` defines for the variant given; on success the frame echoes the address and fits the buffer; with the count reset it never panics and the frame is a piece of the stream |
| Transport.Handler.ReadFrames | rtu_over_tcp_client.go:80-116 | the `for` loop ends in exactly the outcome `Framer.Frame` defines |
| Transport.Handler.AssembleInto | rtu_over_tcp_client.go:87-106 | one turn's reads leave `n`, `n1`, `err`, the buffer and the queue as `Framer.Assemble` says |
| Transport.Handler.CompleteInto | rtu_over_tcp_client.go:91-106 | the classification and top-up leave `n`, `n1`, `err`, the buffer and the queue as `Framer.Complete` says |
| Transport.Handler.TopUpInto | rtu_over_tcp_client.go:96-97 | one `io.ReadFull(mb.conn, data[n:upTo])` and `n += n1` leave `n`, `n1`, `err`, the buffer and the queue as `Framer.TopUp` says |
| Transport.Handler.Send | rtu_over_tcp_client.go:39-72 | a refused connect returns its error with no connection; the drain removes only the chunks that arrive in its window; `lastActivity` is the clock; a failed `SetDeadline` returns before anything is written or read; after success, the deadline is the zero time when `Timeout <= 0` and `lastActivity + Timeout` otherwise; a failed `Write` returns before anything is read; after a successful `Write` the request is on the wire and the result is `readResponse` on the drained stream |

## Left out

- The mutex `mb.mu` (lines 40-41) and the idle-close timer `startCloseTimer` (line 54) are left out. They exist only for concurrency and wall-clock time, and the timer's body is in a file this model does not include.
- `tcpTransporter.connect`, `calculateResponseLength`, the sizes `rtuMinSize`, `rtuMaxSize` and `rtuExceptionSize`, and the defaults `tcpTimeout` and `tcpIdleTimeout` are defined in files this model does not include. They are parameters: `World.dial`, `lengthOf`, `Framer.Sizes` and the constructor's arguments. The sizes are only assumed to satisfy `0 < rtuMinSize <= rtuMaxSize`, `2 <= rtuMaxSize` and `rtuExceptionSize <= rtuMaxSize`.
- Real sockets are left out. `time.Now`, the socket layer's answers to `SetDeadline` and `Write`, and how much data arrives within the 100 µs drain are parameters of `Send` (`World`). A deadline does not fire at a point in time: the stream simply ends with its error once the queued chunks are used up.
- Transport.Handler.Send: the drain by `io.ReadAll` is modelled as dropping a number of whole chunks, which is a parameter. Its errors are ignored, as in the source.
- Transport.Handler.Send: a `Write` either writes the whole request or fails having written nothing. Partial writes are not modelled.
- `logf` (lines 65 and 112) is left out, because it is logging only.
- `RTUOverTCPClient` (lines 28-31) is left out, because it is a wrapper over the client library.
- Transport.Handler.ReadResponse: a Go panic at `data[:n]` is modelled as returning the error `SliceBoundsPanic`. The model does not capture that the panic unwinds the caller.
- Transport.Handler.ReadResponse: the bytes of `aduResponse` returned with an error are modelled as a copy of the shared buffer taken at return time. Later changes through the slice are outside the model.
- Transport.Handler.Send: with `Timeout <= 0` no deadline is set (lines 56-60), and a peer that sends nothing and keeps the connection open leaves the read at line 87 blocked for ever. The model's connection always ends, with the error `end`, once its chunks are used up, so it cannot show a read that never returns.
- Replies.NormalTurn: for a normal reply of the predicted length, it covers the reply delivered in non-empty chunks that end where the reply ends, with a first read of a turn that reaches byte 1. With the RTU sizes (`rtuMinSize` is 4) every first read does. A `Read` that returns no bytes and no error (an empty chunk) is not covered. Neither is a chunk that carries both the end of the reply and bytes after it: when the first read reaches such a chunk, the source itself reads those bytes into the frame.
- Replies.NormalReplyAccepted: for a normal reply of the predicted length, the same delivery condition as Replies.NormalTurn, with the same cases not covered.
- Replies.StrayReplySkipped: for the stray reply and the awaited reply alike, the same delivery condition as Replies.NormalTurn, with the same cases not covered.
- Replies.IntendedExceptionTurn: for an exception reply, the same delivery condition as Replies.NormalTurn, with the same cases not covered.
- Replies.IntendedExceptionAccepted: for an exception reply, the same delivery condition as Replies.NormalTurn, with the same cases not covered.
- Replies.AsWrittenExceptionCutShort: for an exception reply, the same delivery condition as Replies.NormalTurn, with the same cases not covered.

## Findings

| source | as written | input that shows it | evidently intended | confidence | as-written member | corrected member |
|---|---|---|---|---|---|---|
| rtu_over_tcp_client.go:77 | `functionFail := aduRequest[1] & 0x80`, which is 0x00 for every ordinary function code, so an exception reply (function code with the high bit set) takes neither branch and is never topped up to `rtuExceptionSize` | sizes 4/256/5, request `01 03`, predicted length 7; the reply `01 83 02 AA BB` arrives as `01 83 02 AA` then `BB`; the frame accepted is `01 83 02 AA`, and `BB` is left for the next exchange | the bitwise or of `aduRequest[1]` and 0x80, the exception code of the Modbus application protocol, so the whole 5-byte exception reply is read | high (not executed) | Findings.ExceptionReplyTruncated, Replies.AsWrittenExceptionCutShort | Findings.ExceptionReplyWhole, Replies.IntendedExceptionAccepted |
| rtu_over_tcp_client.go:105 | `n += n1` runs even when line 103 did not read, and `n1` keeps the count of an earlier turn's top-up | same sizes and request; the stream is `02 00 09 09`, `07`, `01 00 05 05 05`; the stray frame from device 2 leaves `n1 == 1`; the next frame is accepted as `01 00 05 05 05 00`, whose last byte never arrived | add `n1` only after a read at line 103, that is, start every turn with `n1 == 0`; the `CountReset` variant makes this correction alone, and it suffices for the property | high (not executed) | Findings.StaleCountAddsUnreadByte, FramerFacts.ExceptionReplyAsRead | FramerFacts.ResetFrameIsFromStream, Findings.NoUnreadBytesOnceReset |
