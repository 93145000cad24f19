# SLIP framing, modelled and verified in Dafny

This project models the two revisions of a small SLIP (RFC 1055) framing
codec in C, and proves properties of the model.

- **The library revision (`src/slip.c`).** A `slip_t` context is set up
  either as an encoder or as a decoder over a buffer the caller supplies.
  - The encoder writes END, the escaped payload and END into that buffer.
  - The decoder is a four-state machine fed one byte at a time.
  - Its escape table is the RFC 1055 one plus the two extra escapes of the
    SLIP layer of the Bluetooth HCI Three-wire UART transport (Bluetooth
    Core Specification, Vol 4 Part D, section 3).
- **The legacy transport handler (root `slip.c`).** It sends a frame
  through a `send` callback from a 100-byte stack buffer, truncating
  anything longer. It receives by pulling chunks from a `recv` callback
  into a 100-byte ring buffer and draining that ring through a five-state
  machine. The ring's contents and the state persist from one call to the
  next. This revision escapes only END and ESC.

The project has five files:

- `wire.dfy` (module `Wire`)
  - The constants, and the escape table of both revisions (`Variant`).
  - Whole-sequence `Escape`, `Frame` and `Unescape`.
  - The round-trip, injectivity and no-END-inside lemmas.
- `codec.dfy` (module `Codec`)
  - Class `Slip` models `slip_t`: the fields `kind`, `buf` (an array), `len`,
    `idx`, `hasFrame` and `state`.
  - One method per library function that changes the context; the
    accessors are the functions `HasFrame`, `GetFrame` and `GetFrameSize`.
  - The loop of `slip_encoder_process` is a `while` loop over the array,
    proved against `Escape` and `Frame`.
  - `slip_decoder_process_byte` is proved against the pure reference `Step`.
- `codec_lemmas.dfy` (module `CodecLemmas`): what feeding whole byte streams
  to the decoder does (`Run`, many calls of `Step`).
  - The round trip, noise before a frame, and frames accumulating in the
    buffer.
  - Recovery after a bad escape.
  - The unit-test vectors of `tests/test.cpp`.
- `transport.dfy` (module `Transport`)
  - Class `Handler` models `struct slip`. Its ring buffer is a `seq` of at
    most 100 bytes.
  - Class `Link` models `struct slip_config`: `send` appends to a record of
    the buffers sent, and `recv` pops a script of chunks.
  - The send loop is proved against `SendBuffer`.
  - The nested receive loops are proved against `Run`/`Receive`. That
    reference describes the whole call: the bytes written, the outcome, and
    the state, ring and unread chunks left for the next call.
- `transport_lemmas.dfy` (module `TransportLemmas`): what the legacy
  transport does with whole streams.
  - Exact output when the frame fits, and truncation when it does not.
  - Sending then receiving, read-ahead across calls, and the buffer that is
    exactly full.
  - Aborts on an ESC with no valid code after it.
  - The in-order consumption of the input.
  - The unit-test vectors of `tests/test_slip.c`.

Two behaviours of the legacy transport are shown by lemmas:

- The send buffer is cut after 99 bytes. The cut can fall between an ESC
  and its code, so the frame goes out with a bare ESC before the closing
  END (`SendDanglingEscape`). Received, that frame fails the assertion on
  the byte after ESC (`DanglingEscapeAborts`).
- After an ESC the receiver reads the next byte from the ring at once. If
  `recv` split the stream right after the ESC, the ring is empty and the
  assertion fails: the byte examined is still ESC, provided popping from an
  empty ring leaves it as it was (see "Left out"). The same bytes in one
  chunk are received correctly (`SplitEscapeVector`).

Four further behaviours of the code, which the model keeps:

- `slip_send_frame` truncates an oversized frame and still sends it. It
  does not report an overflow.
- `slip_encoder_process` rejects an empty payload with `-SLIP_ERROR`. It
  does not produce the two-byte frame END END.
- The legacy receive loop does not recover from a bad escape: it asserts.
- After a frame, END END makes the legacy receiver return an empty frame
  (`ReceiveVectorsTwoFrames`, second vector).

## Model

| member | source | states |
|---|---|---|
| Wire.EscapeByte | src/slip.c:73-96 | a reserved byte becomes two bytes starting with ESC, any other byte stays itself; END never appears |
| Wire.UnescapeByte | src/slip.c:171-184 | a code that is accepted gives a reserved byte whose escape is ESC and that code; a refused code ends the escape of no reserved byte |
| Wire.Escape | src/slip.c:68-99 | the escaped body is as long as the payload plus one byte per reserved byte |
| Wire.Frame | src/slip.c:67-105 | a frame starts and ends with END, has no END inside, and is 2 bytes longer than the escaped body |
| Wire.Unescape | src/slip.c:207-225 | a body that decodes yields a payload no longer than the body |
| Wire.EscapeNoEnd | src/slip.c:73-96 | no escaped body contains END, so END delimits frames |
| Wire.UnescapeNoEnd | src/slip.c:207-216 | a body that decodes contains no raw END |
| Wire.EscapeAppend | slip.c:37-59 | escaping distributes over concatenation |
| Wire.EscapePlain | slip.c:48 | a payload without reserved bytes travels verbatim |
| Wire.UnescapeEscape | src/slip.c:171-184 | decoding the escaped payload gives the payload back, for both tables |
| Wire.EscapeUnescape | src/slip.c:207-225 | every decodable body without raw 0x11/0x13 is the escaping of what it decodes to |
| Wire.EscapeInjective | src/slip.c:73-96 | distinct payloads have distinct escaped bodies |
| Wire.UnescapeByteOfEscape | src/slip.c:174-177 | the code of each reserved byte reads back as that byte |
| Codec.DecodeByte | src/slip.c:207-217 | END raises the frame flag, ESC appends nothing, any other byte is appended |
| Codec.Step | src/slip.c:186-231 | NOMEMORY exactly when `idx >= len`, and then nothing changes; a bad escape gives -SLIP_ERROR with the buffer cleared and UNKNOWN; the flag never drops; the accumulated bytes stay within `len` |
| Codec.Run | src/slip.c:186-231 | over a whole byte stream the accumulated bytes stay within `len` and a raised flag stays raised |
| Codec.EscapeInto | src/slip.c:62-99 | after the loop the buffer holds END and the escaped first `cur` payload bytes; the loop stops early only at index `len - 1` or more; the last byte began below `len - 1`; nothing beyond is written |
| Codec.EscapeNext | src/slip.c:73-98 | one loop turn extends the buffer by exactly the escape of the next payload byte |
| Codec.PutEscaped | src/slip.c:73-96 | the switch writes ESC and the code for a reserved byte, and the byte itself otherwise |
| Codec.CloseFrame | src/slip.c:101-104 | the closing END completes `Frame(p)` in the buffer |
| Codec.EncodeOutcome | src/slip.c:101-110 | the success test after the loop holds exactly when the frame of the payload fits in `len` bytes |
| Codec.Slip.constructor | src/slip.h:18-36 | a zeroed `slip_t`: no kind, no buffer, index 0, no frame, UNKNOWN |
| Codec.Slip.EncoderInit | src/slip.c:24-38 | the buffer's first `len` bytes zeroed, the context cleared, kind Encoder over the buffer; the decoder state kept |
| Codec.Slip.EncoderDeinit | src/slip.c:40-50 | buffer forgotten; length, index and flag cleared; SUCCESS; decoder state kept |
| Codec.Slip.EncoderProcess | src/slip.c:52-111 | a NULL or empty payload gives -SLIP_ERROR and a non-encoder -SLIP_TYPE_ERROR, both changing nothing; otherwise SUCCESS exactly when the frame fits, the buffer then holding the frame and the flag set, else NOMEMORY with the flag untouched |
| Codec.Slip.EncodePayload | src/slip.c:62-110 | the result depends on the payload only: success iff the frame fits, and the buffer then holds exactly `Frame(p)` |
| Codec.Slip.DecoderInit | src/slip.c:141-155 | buffer zeroed, kind Decoder, decoder fresh (UNKNOWN, nothing accumulated, no frame) |
| Codec.Slip.DecoderDeinit | src/slip.c:157-169 | everything cleared, the state included; SUCCESS |
| Codec.Slip.DecoderProcessEscape | src/slip.c:171-184 | succeeds exactly for a code of the table and then appends the byte it stands for; otherwise sets `idx` to 0 and leaves the buffer as it was |
| Codec.Slip.DecoderProcessByte | src/slip.c:186-231 | the new contents, state and flag are those `Step` gives for the old ones, and so is the status; only the byte at the old `idx` can change, and the buffer is untouched on every path that does not append |
| Codec.HasFrame | src/slip.c:233-240 | `slip_decoder_has_frame` (and `slip_encoder_has_frame`, src/slip.c:113-119, the same code): false for a NULL context, the frame flag otherwise; `AccessorsGiveFrame` adds that it is true exactly when `GetFrame` is not NULL |
| Codec.GetFrame | src/slip.c:242-249 | `slip_decoder_get_frame` (and `slip_encoder_get_frame`, src/slip.c:121-128, the same code): NULL exactly when no frame is ready; otherwise the context's buffer, with room for the reported frame size |
| Codec.GetFrameSize | src/slip.c:251-258 | `slip_decoder_get_frame_size` (and `slip_encoder_get_frame_size`, src/slip.c:130-137): 0 when no frame is ready, the write index otherwise, never more than the buffer length |
| Codec.AccessorsGiveFrame | src/slip.c:233-258 | `get_frame` and `get_frame_size` (the encoder's at src/slip.c:113-137 are the same code) designate exactly the accumulated bytes, and give NULL and 0 exactly when the flag is clear, that is, exactly when `HasFrame` is false |
| CodecLemmas.RunAppend | src/slip.c:186-231 | feeding `a` then `b` is feeding `a + b` |
| CodecLemmas.UnescapeByteRange | src/slip.c:171-184 | exactly 0xDC..0xDF may follow ESC |
| CodecLemmas.NoiseIgnored | src/slip.c:196-200 | bytes other than END leave an UNKNOWN decoder unchanged |
| CodecLemmas.NoEndNoFrame | src/slip.c:207-211 | no frame becomes ready without an END |
| CodecLemmas.FrameStartFallsThrough | src/slip.c:201-206 | FRAME_START handles a byte other than END as DECODING does |
| CodecLemmas.RunData | src/slip.c:214-216 | a data byte in DECODING is appended |
| CodecLemmas.RunEscapePair | src/slip.c:212-225 | an escape pair appends the byte it stands for |
| CodecLemmas.DecodeBody | src/slip.c:207-225 | a decodable body appends its payload, every call succeeding, while it fits |
| CodecLemmas.DecodeFrame | src/slip.c:195-217 | a frame met in UNKNOWN appends its payload and raises the flag, when the buffer has room for one byte more |
| CodecLemmas.RoundTrip | src/slip.c:141-231 | a fresh decoder fed `Frame(p)` accepts every byte and ends holding `p` with the flag set |
| CodecLemmas.FrameNotReadyEarly | src/slip.c:207-211 | the flag is still clear before the closing END of a frame |
| CodecLemmas.NoiseThenFrame | src/slip.c:196-200 | noise before a frame does not change what is decoded |
| CodecLemmas.FramesAccumulate | src/slip.c:207-211 | a second frame is appended to the first: `idx` is not reset between frames |
| CodecLemmas.RecoverAfterBadEscape | src/slip.c:218-222 | a bad escape code fails and clears the buffer; the next frame then decodes from scratch |
| CodecLemmas.BadEscapeVector | tests/test.cpp:142-191 | END and ESC succeed, then 0x05, 0xDB, 0xE0 or 0xEF fails and leaves the fresh state (no frame, size 0) |
| CodecLemmas.DecoderVectorEscapes | tests/test.cpp:115-120 | the escaped END/ESC vector decodes to its expected payload |
| CodecLemmas.DecoderVectorPlain | tests/test.cpp:125-130 | the plain vector decodes to its expected payload |
| CodecLemmas.DecoderVectorNoise | tests/test.cpp:135-140 | the vector with leading noise decodes to its expected payload |
| CodecLemmas.DecoderVectorThreeWire | tests/test.cpp:196-200 | 0xDE and 0xDF after ESC decode to 0x11 and 0x13; the test at these lines declares this vector and its expected payload but never feeds the decoder or checks anything, so here the vector is only checked against the model |
| CodecLemmas.EncoderVectorEscapes | tests/test.cpp:35-40 | the expected frame of the END/ESC payload |
| CodecLemmas.EncoderVectorPlain | tests/test.cpp:45-69 | the expected frame of the plain payload, too long for the two-byte buffer |
| CodecLemmas.EncoderVectorThreeWire | tests/test.cpp:74-79 | 0x11 and 0x13 are escaped as ESC 0xDE and ESC 0xDF |
| Transport.PutForce | slip.c:87 | the ring holds the newest bytes of ring and chunk together, at most 100 of them, and all of them when they fit |
| Transport.SendBuffer | slip.c:33-62 | what is sent is 2 to 100 bytes long and starts and ends with END |
| Transport.DecodeChar | slip.c:101-114 | END, and only END, returns the frame; ESC fails the assertion exactly when the ring is empty or holds a byte other than 0xDC/0xDD; any other case appends one byte |
| Transport.Feed | slip.c:91-126 | at most one byte is appended per byte read, nothing written is changed, and only FRAME_START and DECODING can end the call |
| Transport.Run | slip.c:79-131 | a returned frame is shorter than `length` and leaves FRAME_END; -1 comes with `length` bytes written; running out of chunks leaves ring and script empty; the bytes written only grow |
| Transport.Receive | slip.c:67-134 | a call returns a frame shorter than `length`, or -1 with `length` bytes written, or runs out of chunks with an empty ring |
| Transport.Link.constructor | slip.h:32-44 | nothing sent yet, the chunk script as given |
| Transport.Link.Send | slip.c:62 | `send` records the buffer it is given |
| Transport.Link.Recv | slip.c:81 | `recv` delivers the next chunk, or none once the script is exhausted |
| Transport.Handler.constructor | slip.h:26-31 | UNKNOWN, empty ring, no configuration |
| Transport.Handler.Init | slip.c:11-20 | UNKNOWN, empty ring, the configuration adopted, 0 returned |
| Transport.Handler.Reset | slip.c:22-26 | UNKNOWN and an empty ring; the configuration stays |
| Transport.Handler.SendFrame | slip.c:28-65 | `send` is called exactly once, with `SendBuffer(payload)`, and 0 is returned |
| Transport.Handler.ReceiveFrame | slip.c:67-134 | state, ring and unread chunks become those `Receive` gives; the buffer holds the bytes it wrote and nothing beyond them changes; the result is what `Receive`'s outcome reports (0 and the length, or -1) |
| Transport.Handler.OuterTurn | slip.c:79-131 | one turn of the outer loop ends the call as `Run` says, or leaves `Run` unchanged with less input left |
| Transport.Handler.PollTurn | slip.c:80-87 | with an empty ring a turn polls `recv`, puts the chunk into the ring and drains it, keeping to `Run` |
| Transport.Handler.Poll | slip.c:80-84 | the chunk `recv` gives leaves the call where the empty ring and the old script would; none exactly when the script is exhausted |
| Transport.Handler.DrainRing | slip.c:88-130 | the inner loop ends the call as `Run` says, or empties the ring with `Run` unchanged |
| Transport.Handler.ProcessChar | slip.c:89-126 | one byte goes through the state switch as `Feed` says |
| Transport.Handler.DecodeInto | slip.c:101-114 | the DECODING case as `DecodeChar` says |
| Transport.EncodeTruncated | slip.c:33-59 | the send loop leaves END and the escaped payload, cut after 99 bytes |
| Transport.PutTruncated | slip.c:38-58 | one loop turn appends the next escaped byte, or stops at index 99 with the clipped output |
| Transport.ClipExtends | slip.c:50-58 | once 99 bytes are out, the rest of the payload changes nothing |
| Transport.UnclippedStep | slip.c:37-54 | the unbounded output grows by one escaped byte per payload byte |
| TransportLemmas.SendBufferFits | slip.c:33-62 | the exact RFC 1055 frame is sent if and only if it fits in 100 bytes |
| TransportLemmas.SendBufferTruncates | slip.c:50-60 | a longer frame goes out as its first 99 bytes and END |
| TransportLemmas.SendVectors | tests/test_slip.c:74-79 | 0x01, END and ESC go out as the test expects |
| TransportLemmas.SendSingle | slip.c:36-60 | a one-byte payload goes out as END, its escape, END |
| TransportLemmas.SendLeavesThreeWireBytes | slip.c:39-48 | 0x11 and 0x13 go out verbatim |
| TransportLemmas.SendVectorLong | tests/test_slip.c:80-100 | a hundred 0x01 bytes go out as END, 98 of them, END |
| TransportLemmas.SendDanglingEscape | slip.c:40-60 | ninety-seven 0x01 and END go out with a bare ESC before the closing END |
| TransportLemmas.RunOneByte | slip.c:101-129 | an escaped byte is stored; the call goes on, or returns -1 when that filled the buffer |
| TransportLemmas.RunEscaped | slip.c:101-114 | an escaped payload in DECODING is stored whole while it fits |
| TransportLemmas.RunEscapedFromStart | slip.c:96-114 | the same from FRAME_START, which falls through |
| TransportLemmas.RunFills | slip.c:112-129 | a payload whose last byte fills the buffer gives -1 with the payload written and the rest in the ring |
| TransportLemmas.ReceiveOneFrame | slip.c:91-110 | a whole frame met in UNKNOWN or after a frame is returned; what follows stays in the ring |
| TransportLemmas.NoiseSkipped | slip.c:92-95 | bytes before the first END are skipped |
| TransportLemmas.RepeatedEndSkipped | slip.c:96-98 | repeated ENDs are absorbed in FRAME_START |
| TransportLemmas.ErrorSkipped | slip.c:115-124 | after a frame, a byte other than END leads to ERROR, which skips to the next END and returns to FRAME_END |
| TransportLemmas.EmptyChunkSkipped | slip.c:81-83 | a `recv` that delivers nothing is polled again |
| TransportLemmas.ChunkArrives | slip.c:80-87 | a chunk is read only when the ring is empty, and then whole |
| TransportLemmas.SendThenReceive | slip.c:28-134 | a payload that fits both sides is received as sent, after a reset or after a frame; later chunks stay unread |
| TransportLemmas.ReadAhead | slip.c:87-110 | two frames in one chunk: the second stays in the ring and the next call returns it without `recv` |
| TransportLemmas.ExactFitRejected | slip.c:112-129 | a payload of exactly `length` bytes gives -1; its closing END stays in the ring and the next call returns an empty frame |
| TransportLemmas.LoneEnd | slip.c:106-110 | END in DECODING with nothing written returns an empty frame |
| TransportLemmas.OpenFrame | slip.c:91-124 | the END that opens a frame moves UNKNOWN to FRAME_START, FRAME_END to DECODING, ERROR to FRAME_END |
| TransportLemmas.EscapeAborts | slip.c:102-104 | ESC followed by nothing in the ring, or by a byte other than 0xDC/0xDD, fails the assertion |
| TransportLemmas.SplitEscapeVector | slip.c:80-104 | the same bytes are received in one chunk and fail the assertion when `recv` splits them right after ESC |
| TransportLemmas.DanglingEscapeAborts | slip.c:40-60 | the truncated frame with the bare ESC fails the receiver's assertion |
| TransportLemmas.TruncatedEscapeAborts | slip.c:102-104 | a frame of any non-empty payload, fitting in one 100-byte chunk, whose closing END directly follows an ESC after the escaped payload fails the assertion |
| TransportLemmas.ReceiveVectorSingle | tests/test_slip.c:123-129 | the three one-byte vectors are received as expected |
| TransportLemmas.ReceiveVectorNoise | tests/test_slip.c:133-135 | the frame after noise is received |
| TransportLemmas.ReceiveVectorDoubleEnd | tests/test_slip.c:137-139 | the frame after a doubled END is received |
| TransportLemmas.ReceiveVectorsTwoFrames | tests/test_slip.c:141-149 | both calls are received (return 0) and return the two frames of one chunk, in vector 8 the second one empty |
| TransportLemmas.ReceiveVectorLostStart | tests/test_slip.c:151-154 | both calls are received (return 0): the first frame, then, with the stray byte after it skipped, the frame after that |
| TransportLemmas.PendingSuffix | slip.c:87-89 | popping bytes from the ring leaves a suffix of the pending input |
| TransportLemmas.RunKeepsOrder | slip.c:79-131 | what a call leaves unread (ring, then chunks) is a tail of what it was given: input is consumed from the front, in order |
| TransportLemmas.FeedLeavesSuffix | slip.c:89-105 | a byte, or ESC and its code, is taken from the front of the ring |

## Left out

- The ring buffer implementation (`rt_ringbuffer_*`) is not part of this
  model. The ring is a sequence of at most 100 bytes: `PutForce` appends
  and drops the oldest bytes, popping takes the front, and the data length
  is the sequence length.
- `rt_ringbuffer_getchar` on an empty ring is assumed to leave the
  destination byte untouched. After an ESC that ends the ring, the byte
  examined is then still ESC, and the assertion fails. This is the
  split-ESC case and `DecodeChar`'s empty-ring abort. A ring buffer that
  wrote 0xDC or 0xDD there instead would let the assertion pass; the model
  does not cover that.
- The `send` and `recv` callbacks are not real I/O.
  - `send` is recorded. Its return value is ignored, as the source ignores
    it.
  - `recv` delivers a finite script of chunks of at most 100 bytes. A
    `recv` that returns 0 or less is an empty chunk.
  - The staging buffer `temp_buf` is the chunk itself.
- The receive loop spins forever while `recv` has nothing. Here the call
  ends with `StillWaiting` once the script is exhausted; that outcome
  stands for a call that has not returned yet.
- `assert` and `SLIP_ASSERT` are not modelled as an abort.
  - The NULL checks of pointer arguments become non-null types.
  - `len > 0` and `length > 0` become requires.
  - The assertion on the byte after ESC becomes a requirement of
    `Handler.ReceiveFrame` (see below).
- The `memset` zeroing of the init functions is stated on the buffer's
  first `len` bytes; the array may be longer than `len`.
- The `default:` branches of the state switches are left out: they are
  unreachable with the datatypes here.
- Transport.Handler.ReceiveFrame: requires that the call does not reach
  the failing assertion; what the program does there is stated only as
  `Run`'s `Aborted` outcome and by the abort lemmas.
- Codec.Slip.EncoderProcess: the payload array must be distinct from the
  context's own buffer, because C would let them overlap.
- Codec.Slip.EncodePayload: the write index is a `uint16`. A buffer longer
  than 65535 bytes is outside the model, as it is outside the C types.
- The test harnesses' fake transport and `slip_register_handler` are not
  part of this model. The test vectors are restated as lemmas instead.
