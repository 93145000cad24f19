/** What the legacy transport does with whole byte streams, stated over
    `SendBuffer` and `Run`, the references that `Handler.SendFrame` and
    `Handler.ReceiveFrame` are proved to follow. */
module TransportLemmas {
  import opened Wire
  import opened Transport

  // Sending

  /** The sender puts out exactly the RFC 1055 frame when, and only when,
      that frame fits the 100-byte send buffer. */
  lemma SendBufferFits(p: seq<bv8>)
    ensures SendBuffer(p) == Frame(Rfc1055, p) <==> |Frame(Rfc1055, p)| <= SLIP_MAX_BUFFER
  {
    var w := Unclipped(p);
    assert Frame(Rfc1055, p) == w + [END];
    if |w| <= SLIP_MAX_BUFFER - 1 {
      assert Clip(w) == w;
    } else {
      assert |SendBuffer(p)| < |Frame(Rfc1055, p)|;
    }
  }

  /** A longer frame is cut: its first 99 bytes, then END. */
  lemma SendBufferTruncates(p: seq<bv8>)
    requires |Frame(Rfc1055, p)| > SLIP_MAX_BUFFER
    ensures |SendBuffer(p)| == SLIP_MAX_BUFFER
    ensures SendBuffer(p)[..SLIP_MAX_BUFFER - 1] == Frame(Rfc1055, p)[..SLIP_MAX_BUFFER - 1]
  {
    var w := Unclipped(p);
    assert Frame(Rfc1055, p) == w + [END];
    assert Frame(Rfc1055, p)[..SLIP_MAX_BUFFER - 1] == w[..SLIP_MAX_BUFFER - 1];
  }

  /** The unit test's short vectors: 0x01, END and ESC alone. */
  lemma SendVectors(a: seq<bv8>, b: seq<bv8>, c: seq<bv8>)
    requires a == [0x01] && b == [END] && c == [ESC]
    ensures SendBuffer(a) == [END, 0x01, END]
    ensures SendBuffer(b) == [END, ESC, ESC_END, END]
    ensures SendBuffer(c) == [END, ESC, ESC_ESC, END]
  {
    SendSingle(a);
    SendSingle(b);
    SendSingle(c);
  }

  /** A one-byte payload goes out as END, its escape, END. */
  lemma SendSingle(p: seq<bv8>)
    requires |p| == 1
    ensures SendBuffer(p) == [END] + EscapeByte(Rfc1055, p[0]) + [END]
  {
    assert p == [p[0]];
    EscapeSingle(Rfc1055, p[0]);
  }

  /** This revision escapes only END and ESC: the three-wire bytes 0x11
      and 0x13 go out verbatim. */
  lemma SendLeavesThreeWireBytes(p: seq<bv8>)
    requires p == [HCI_11, HCI_13]
    ensures SendBuffer(p) == [END, HCI_11, HCI_13, END]
  {
    EscapePlain(Rfc1055, p);
  }

  /** The unit test's long vector: a hundred 0x01 bytes go out as END,
      ninety-eight of them, END. */
  lemma SendVectorLong(p: seq<bv8>)
    requires p == seq(100, _ => 0x01)
    ensures SendBuffer(p) == [END] + seq(98, _ => 0x01) + [END]
  {
    EscapePlain(Rfc1055, p);
    assert Unclipped(p)[..SLIP_MAX_BUFFER - 1] == [END] + seq(98, _ => 0x01);
  }

  /** The cut can fall between ESC and its code: ninety-seven 0x01 bytes
      and END go out with a bare ESC before the closing END. */
  lemma SendDanglingEscape(q: seq<bv8>, p: seq<bv8>)
    requires q == seq(97, _ => 0x01) && p == q + [END]
    ensures SendBuffer(p) == [END] + q + [ESC, END]
  {
    EscapePlain(Rfc1055, q);
    EscapeSnoc(Rfc1055, q, END);
    assert Unclipped(p) == [END] + q + [ESC, ESC_END];
    assert Unclipped(p)[..SLIP_MAX_BUFFER - 1] == [END] + q + [ESC];
  }

  // Receiving: single steps

  /** One escaped payload byte in FRAME_START or DECODING is stored: the call
      goes on in DECODING, or returns -1 when that filled the buffer. */
  lemma RunOneByte(state: State, out: seq<bv8>, c: bv8, tail: seq<bv8>, inc: seq<seq<bv8>>, length: nat)
    requires state == Decoding || state == FrameStart
    requires |out| + 1 <= length
    ensures |out| + 1 < length ==>
      Run(state, out, EscapeByte(Rfc1055, c) + tail, inc, length) == Run(Decoding, out + [c], tail, inc, length)
    ensures |out| + 1 == length ==>
      Run(state, out, EscapeByte(Rfc1055, c) + tail, inc, length) == Rx(TooSmall, out + [c], Decoding, tail, inc)
  {
    var ring := EscapeByte(Rfc1055, c) + tail;
    if Reserved(Rfc1055, c) {
      UnescapeByteOfEscape(Rfc1055, c);
      assert ring[0] == ESC && ring[1..][0] == EscapeByte(Rfc1055, c)[1] && ring[1..][1..] == tail;
    } else {
      assert ring[0] == c && ring[1..] == tail;
    }
    assert Feed(state, out, ring[0], ring[1..]) == Next(Decoding, out + [c], tail);
  }

  /** An escaped payload in DECODING is stored whole while it fits. */
  lemma {:induction false} RunEscaped(out: seq<bv8>, p: seq<bv8>, x: seq<bv8>, inc: seq<seq<bv8>>, length: nat)
    requires |out| + |p| < length
    decreases |p|
    ensures Run(Decoding, out, Escape(Rfc1055, p) + x, inc, length) == Run(Decoding, out + p, x, inc, length)
  {
    if p == [] {
      assert Escape(Rfc1055, p) + x == x && out + p == out;
    } else {
      var c, p' := p[0], p[1..];
      var tail := Escape(Rfc1055, p') + x;
      assert Run(Decoding, out, Escape(Rfc1055, p) + x, inc, length) == Run(Decoding, out + [c], tail, inc, length) by {
        EscapedHead(c, p, x);
        RunOneByte(Decoding, out, c, tail, inc, length);
      }
      ShiftHead(out, p);
      RunEscaped(out + [c], p', x, inc, length);
    }
  }

  /** The same from FRAME_START, whose first non-END byte falls through
      into DECODING. */
  lemma RunEscapedFromStart(out: seq<bv8>, p: seq<bv8>, x: seq<bv8>, inc: seq<seq<bv8>>, length: nat)
    requires p != [] && |out| + |p| < length
    ensures Run(FrameStart, out, Escape(Rfc1055, p) + x, inc, length) == Run(Decoding, out + p, x, inc, length)
  {
    var c, p' := p[0], p[1..];
    var tail := Escape(Rfc1055, p') + x;
    assert Run(FrameStart, out, Escape(Rfc1055, p) + x, inc, length) == Run(Decoding, out + [c], tail, inc, length) by {
      EscapedHead(c, p, x);
      RunOneByte(FrameStart, out, c, tail, inc, length);
    }
    ShiftHead(out, p);
    RunEscaped(out + [c], p', x, inc, length);
  }

  /** Moving the first byte of `p` to the end of `out`. */
  lemma ShiftHead(out: seq<bv8>, p: seq<bv8>)
    requires p != []
    ensures (out + [p[0]]) + p[1..] == out + p
  {
    assert p == [p[0]] + p[1..];
  }

  /** The escaped payload followed by `x`, split after its first byte. */
  lemma EscapedHead(c: bv8, p: seq<bv8>, x: seq<bv8>)
    requires p != [] && c == p[0]
    ensures Escape(Rfc1055, p) + x == EscapeByte(Rfc1055, c) + (Escape(Rfc1055, p[1..]) + x)
  {
    assert p == [c] + p[1..];
    EscapeCons(Rfc1055, c, p[1..]);
    Assoc(EscapeByte(Rfc1055, c), Escape(Rfc1055, p[1..]), x);
  }

  /** Like `RunEscaped`, but the last byte fills the buffer: -1, with the
      payload written and the rest left in the ring. */
  lemma {:induction false} RunFills(state: State, out: seq<bv8>, p: seq<bv8>, x: seq<bv8>, inc: seq<seq<bv8>>, length: nat)
    requires state == Decoding || state == FrameStart
    requires p != [] && |out| + |p| == length
    decreases |p|
    ensures Run(state, out, Escape(Rfc1055, p) + x, inc, length) == Rx(TooSmall, out + p, Decoding, x, inc)
  {
    var c, p' := p[0], p[1..];
    var tail := Escape(Rfc1055, p') + x;
    EscapedHead(c, p, x);
    RunOneByte(state, out, c, tail, inc, length);
    if p' != [] {
      RunFills(Decoding, out + [c], p', x, inc, length);
    } else {
      assert tail == x;
    }
    ShiftHead(out, p);
  }

  /** A whole frame, met in UNKNOWN (a non-empty one) or right after a
      previous frame, is returned when it fits, leaving what follows it in
      the ring. */
  lemma ReceiveOneFrame(state: State, p: seq<bv8>, rest: seq<bv8>, inc: seq<seq<bv8>>, length: nat)
    requires (state == Unknown && p != []) || state == FrameEnd
    requires |p| < length
    ensures Run(state, [], Frame(Rfc1055, p) + rest, inc, length) == Rx(Received, p, FrameEnd, rest, inc)
  {
    var body := Escape(Rfc1055, p) + ([END] + rest);
    assert Frame(Rfc1055, p) + rest == [END] + body;
    var next := if state == Unknown then FrameStart else Decoding;
    assert Run(state, [], [END] + body, inc, length) == Run(next, [], body, inc, length);
    if state == Unknown {
      RunEscapedFromStart([], p, [END] + rest, inc, length);
    } else {
      RunEscaped([], p, [END] + rest, inc, length);
    }
    assert ([END] + rest)[1..] == rest;
  }

  /** Bytes before the first END are skipped in UNKNOWN. */
  lemma {:induction false} NoiseSkipped(noise: seq<bv8>, ring: seq<bv8>, inc: seq<seq<bv8>>, length: nat)
    requires END !in noise && 0 < length
    decreases |noise|
    ensures Run(Unknown, [], noise + ring, inc, length) == Run(Unknown, [], ring, inc, length)
  {
    if noise != [] {
      assert noise == [noise[0]] + noise[1..];
      assert (noise + ring)[0] == noise[0] && (noise + ring)[1..] == noise[1..] + ring;
      NoiseSkipped(noise[1..], ring, inc, length);
    } else {
      assert noise + ring == ring;
    }
  }

  /** Repeated ENDs before a frame are skipped in FRAME_START. */
  lemma RepeatedEndSkipped(ring: seq<bv8>, inc: seq<seq<bv8>>, length: nat)
    requires 0 < length
    ensures Run(FrameStart, [], [END] + ring, inc, length) == Run(FrameStart, [], ring, inc, length)
  {
    assert ([END] + ring)[1..] == ring;
  }

  /** After a frame, bytes other than END mean a lost start: the ERROR
      state skips them up to the next END, which stands for the end of the
      lost frame and brings the receiver back to FRAME_END. */
  lemma {:induction false} ErrorSkipped(state: State, junk: seq<bv8>, ring: seq<bv8>, inc: seq<seq<bv8>>, length: nat)
    requires state == Error || (state == FrameEnd && junk != [])
    requires END !in junk && 0 < length
    decreases |junk|
    ensures Run(state, [], junk + ([END] + ring), inc, length) == Run(FrameEnd, [], ring, inc, length)
  {
    var s := junk + ([END] + ring);
    if junk == [] {
      assert s[0] == END && s[1..] == ring;
    } else {
      assert s[0] == junk[0] && s[1..] == junk[1..] + ([END] + ring);
      ErrorSkipped(Error, junk[1..], ring, inc, length);
    }
  }

  /** An empty ring with an empty chunk to come polls again. */
  lemma EmptyChunkSkipped(state: State, out: seq<bv8>, inc: seq<seq<bv8>>, length: nat)
    requires |out| < length
    ensures Run(state, out, [], [[]] + inc, length) == Run(state, out, [], inc, length)
  {
    assert ([[]] + inc)[1..] == inc;
  }

  /** A chunk is drained only after the ring is empty, and whole. */
  lemma ChunkArrives(state: State, out: seq<bv8>, chunk: seq<bv8>, inc: seq<seq<bv8>>, length: nat)
    requires |out| < length && |chunk| <= SLIP_MAX_BUFFER
    ensures Run(state, out, [], [chunk] + inc, length) == Run(state, out, chunk, inc, length)
  {
    assert ([chunk] + inc)[1..] == inc;
  }

  // Receiving: whole calls

  /** What the sender puts out for a payload that fits both sides is
      received as that payload, whether the receiver was just reset or has
      just returned a frame; the chunks after it stay unread. */
  lemma SendThenReceive(state: State, p: seq<bv8>, more: seq<seq<bv8>>, length: nat)
    requires (state == Unknown && p != []) || state == FrameEnd
    requires |p| < length && |Frame(Rfc1055, p)| <= SLIP_MAX_BUFFER
    ensures Receive(state, [], [SendBuffer(p)] + more, length) == Rx(Received, p, FrameEnd, [], more)
  {
    SendBufferFits(p);
    ChunkArrives(state, [], SendBuffer(p), more, length);
    assert Frame(Rfc1055, p) + [] == Frame(Rfc1055, p);
    ReceiveOneFrame(state, p, [], more, length);
  }

  /** Two frames in one chunk: the first call returns the first and keeps
      the second in the ring, where the next call finds it without polling
      `recv`; there even an empty frame is returned. */
  lemma ReadAhead(p: seq<bv8>, q: seq<bv8>, more: seq<seq<bv8>>, length: nat)
    requires p != [] && |p| < length && |q| < length
    requires |Frame(Rfc1055, p) + Frame(Rfc1055, q)| <= SLIP_MAX_BUFFER
    ensures var first := Receive(Unknown, [], [Frame(Rfc1055, p) + Frame(Rfc1055, q)] + more, length);
      first == Rx(Received, p, FrameEnd, Frame(Rfc1055, q), more) &&
      Receive(first.state, first.ring, first.incoming, length) == Rx(Received, q, FrameEnd, [], more)
  {
    ChunkArrives(Unknown, [], Frame(Rfc1055, p) + Frame(Rfc1055, q), more, length);
    ReceiveOneFrame(Unknown, p, Frame(Rfc1055, q), more, length);
    assert Frame(Rfc1055, q) + [] == Frame(Rfc1055, q);
    ReceiveOneFrame(FrameEnd, q, [], more, length);
  }

  /** A payload exactly as long as the buffer does not fit: the call returns
      -1 with the payload written and the closing END still in the ring, so
      the next call returns an empty frame. */
  lemma ExactFitRejected(p: seq<bv8>, more: seq<seq<bv8>>)
    requires p != [] && |Frame(Rfc1055, p)| <= SLIP_MAX_BUFFER
    ensures var first := Receive(Unknown, [], [Frame(Rfc1055, p)] + more, |p|);
      first == Rx(TooSmall, p, Decoding, [END], more) &&
      Receive(first.state, first.ring, first.incoming, |p|) == Rx(Received, [], FrameEnd, [], more)
  {
    var body := Escape(Rfc1055, p) + [END];
    assert Frame(Rfc1055, p) == [END] + body;
    ChunkArrives(Unknown, [], Frame(Rfc1055, p), more, |p|);
    OpenFrame(Unknown, body, more, |p|);
    RunFills(FrameStart, [], p, [END], more, |p|);
    assert [] + p == p;
    LoneEnd(more, |p|);
  }

  /** An END in DECODING with nothing written returns an empty frame. */
  lemma LoneEnd(inc: seq<seq<bv8>>, length: nat)
    requires 0 < length
    ensures Run(Decoding, [], [END], inc, length) == Rx(Received, [], FrameEnd, [], inc)
  {
  }

  /** The END that opens a frame: UNKNOWN moves to FRAME_START, FRAME_END to
      DECODING, the ERROR state to FRAME_END. */
  lemma OpenFrame(state: State, body: seq<bv8>, inc: seq<seq<bv8>>, length: nat)
    requires state == Unknown || state == FrameEnd || state == Error
    requires 0 < length
    ensures Run(state, [], [END] + body, inc, length)
      == Run(match state case Unknown => FrameStart case FrameEnd => Decoding case _ => FrameEnd, [], body, inc, length)
  {
    assert ([END] + body)[0] == END && ([END] + body)[1..] == body;
  }

  /** ESC aborts when the ring holds nothing after it, or a byte that is
      not ESC_END or ESC_ESC. */
  lemma EscapeAborts(state: State, out: seq<bv8>, tail: seq<bv8>, inc: seq<seq<bv8>>, length: nat)
    requires (state == Decoding || state == FrameStart) && |out| < length
    requires tail == [] || UnescapeByte(Rfc1055, tail[0]).None?
    ensures Run(state, out, [ESC] + tail, inc, length).outcome == Aborted
  {
    assert ([ESC] + tail)[0] == ESC && ([ESC] + tail)[1..] == tail;
  }

  /** A frame that is received from one chunk aborts when `recv` splits it
      right after an ESC: the code byte is still in the next chunk when the
      ring is read. */
  lemma SplitEscapeVector(whole: seq<bv8>, a: seq<bv8>, b: seq<bv8>)
    requires whole == a + b && a == [END, 0x01, ESC] && b == [ESC_END, END]
    ensures Receive(Unknown, [], [whole], SLIP_MAX_BUFFER) == Rx(Received, [0x01, END], FrameEnd, [], [])
    ensures Receive(Unknown, [], [a, b], SLIP_MAX_BUFFER).outcome == Aborted
  {
    var p1 := a[1..2];
    var p := p1 + [END];
    var rest: seq<bv8> := [];
    SplitEscapeShape(whole, a, b, p1, p, rest);
    assert whole == Frame(Rfc1055, p) + [] && [whole] == [whole] + [] && [a, b] == [a] + [b];
    ChunkArrives(Unknown, [], whole, [], SLIP_MAX_BUFFER);
    ReceiveOneFrame(Unknown, p, [], [], SLIP_MAX_BUFFER);
    ChunkArrives(Unknown, [], a, [b], SLIP_MAX_BUFFER);
    OpenFrame(Unknown, Escape(Rfc1055, p1) + ([ESC] + rest), [b], SLIP_MAX_BUFFER);
    RunEscapedFromStart([], p1, [ESC] + rest, [b], SLIP_MAX_BUFFER);
    EscapeAborts(Decoding, [] + p1, rest, [b], SLIP_MAX_BUFFER);
  }

  /** The byte-level layout of the split-escape vector. */
  lemma SplitEscapeShape(whole: seq<bv8>, a: seq<bv8>, b: seq<bv8>, p1: seq<bv8>, p: seq<bv8>, rest: seq<bv8>)
    requires whole == a + b && a == [END, 0x01, ESC] && b == [ESC_END, END]
    requires p1 == a[1..2] && p == p1 + [END] && rest == []
    ensures p == [0x01, END] && whole == Frame(Rfc1055, p)
    ensures a == [END] + (Escape(Rfc1055, p1) + ([ESC] + rest))
  {
    assert p1 == [p1[0]];
    EscapeSingle(Rfc1055, p1[0]);
    EscapeSnoc(Rfc1055, p1, END);
  }

  /** The sender's dangling ESC trips the receiver's assertion. */
  lemma DanglingEscapeAborts(q: seq<bv8>, p: seq<bv8>)
    requires q == seq(97, _ => 0x01) && p == q + [END]
    ensures Receive(Unknown, [], [SendBuffer(p)], SLIP_MAX_BUFFER).outcome == Aborted
  {
    SendDanglingEscape(q, p);
    OnesPlain(q);
    TruncatedEscapeAborts(q, SendBuffer(p));
  }

  /** A run of 0x01 bytes travels verbatim. */
  lemma OnesPlain(q: seq<bv8>)
    requires forall i :: 0 <= i < |q| ==> q[i] == 0x01
    ensures Escape(Rfc1055, q) == q
  {
    EscapePlain(Rfc1055, q);
  }

  /** A frame whose closing END directly follows an ESC aborts the receiver:
      END is not an escape code. */
  lemma TruncatedEscapeAborts(q: seq<bv8>, s: seq<bv8>)
    requires q != [] && s == [END] + Escape(Rfc1055, q) + [ESC, END] && |s| <= SLIP_MAX_BUFFER
    ensures Receive(Unknown, [], [s], SLIP_MAX_BUFFER).outcome == Aborted
  {
    var e := Escape(Rfc1055, q);
    assert |q| <= |e|;
    TruncatedOpens(e, s);
    EscapedThenAborts(q, [END], [], SLIP_MAX_BUFFER);
    assert [ESC, END] == [ESC] + [END];
  }

  /** Inside a frame, an escaped payload followed by an ESC that nothing valid follows ends in the
      failed assertion. */
  lemma EscapedThenAborts(q: seq<bv8>, tail: seq<bv8>, inc: seq<seq<bv8>>, length: nat)
    requires q != [] && |q| < length
    requires tail == [] || UnescapeByte(Rfc1055, tail[0]).None?
    ensures Run(FrameStart, [], Escape(Rfc1055, q) + ([ESC] + tail), inc, length).outcome == Aborted
  {
    RunEscapedFromStart([], q, [ESC] + tail, inc, length);
    assert [] + q == q;
    EscapeAborts(Decoding, q, tail, inc, length);
  }

  /** A frame cut after its ESC, around any body `e`: the call reads the
      opening END and goes on in FRAME_START with the rest. */
  lemma TruncatedOpens(e: seq<bv8>, s: seq<bv8>)
    requires s == [END] + e + [ESC, END] && |s| <= SLIP_MAX_BUFFER
    ensures Receive(Unknown, [], [s], SLIP_MAX_BUFFER) == Run(FrameStart, [], e + [ESC, END], [], SLIP_MAX_BUFFER)
  {
    assert [s] == [s] + [];
    ChunkArrives(Unknown, [], s, [], SLIP_MAX_BUFFER);
    assert s == [END] + (e + [ESC, END]);
    OpenFrame(Unknown, e + [ESC, END], [], SLIP_MAX_BUFFER);
  }

  // Receiving: the unit test's vectors, each after a reset

  /** Vectors 1 to 3: a plain byte, an escaped END and an escaped ESC. */
  lemma ReceiveVectorSingle(s: seq<bv8>, p: seq<bv8>)
    requires (s == [END, 0x01, END] && p == [0x01])
          || (s == [END, ESC, ESC_END, END] && p == [END])
          || (s == [END, ESC, ESC_ESC, END] && p == [ESC])
    ensures Receive(Unknown, [], [s], SLIP_MAX_BUFFER) == Rx(Received, p, FrameEnd, [], [])
  {
    SingleShape(s, p);
    assert s == Frame(Rfc1055, p) + [] && [s] == [s] + [];
    ChunkArrives(Unknown, [], s, [], SLIP_MAX_BUFFER);
    ReceiveOneFrame(Unknown, p, [], [], SLIP_MAX_BUFFER);
  }

  /** The byte-level layout of vectors 1 to 3. */
  lemma SingleShape(s: seq<bv8>, p: seq<bv8>)
    requires (s == [END, 0x01, END] && p == [0x01])
          || (s == [END, ESC, ESC_END, END] && p == [END])
          || (s == [END, ESC, ESC_ESC, END] && p == [ESC])
    ensures p != [] && s == Frame(Rfc1055, p) && |s| <= SLIP_MAX_BUFFER
  {
    FrameSingle(p);
  }

  /** A one-byte frame: END, the byte's escape, END. */
  lemma FrameSingle(p: seq<bv8>)
    requires |p| == 1
    ensures Frame(Rfc1055, p) == [END] + EscapeByte(Rfc1055, p[0]) + [END]
  {
    assert p == [p[0]];
    EscapeSingle(Rfc1055, p[0]);
  }

  /** Vector 5: noise before the first END is skipped. */
  lemma ReceiveVectorNoise(s: seq<bv8>)
    requires s == [0x01, 0x01, END, 0x02, END]
    ensures Receive(Unknown, [], [s], SLIP_MAX_BUFFER) == Rx(Received, [0x02], FrameEnd, [], [])
  {
    var noise, f, p := s[..2], s[2..], s[3..4];
    NoiseShape(s, noise, f, p);
    assert f == Frame(Rfc1055, p) + [] && [s] == [s] + [];
    ChunkArrives(Unknown, [], s, [], SLIP_MAX_BUFFER);
    NoiseSkipped(noise, f, [], SLIP_MAX_BUFFER);
    ReceiveOneFrame(Unknown, p, [], [], SLIP_MAX_BUFFER);
  }

  /** The byte-level layout of vector 5. */
  lemma NoiseShape(s: seq<bv8>, noise: seq<bv8>, f: seq<bv8>, p: seq<bv8>)
    requires s == [0x01, 0x01, END, 0x02, END]
    requires noise == s[..2] && f == s[2..] && p == s[3..4]
    ensures p == [0x02] && s == noise + f && END !in noise
    ensures f == Frame(Rfc1055, p)
  {
    FramePlainByte(p);
  }

  /** Vector 6: a doubled opening END is skipped. */
  lemma ReceiveVectorDoubleEnd(s: seq<bv8>)
    requires s == [END, END, 0x02, END]
    ensures Receive(Unknown, [], [s], SLIP_MAX_BUFFER) == Rx(Received, [0x02], FrameEnd, [], [])
  {
    var p := s[2..3];
    var x: seq<bv8> := [END] + [];
    var body := Escape(Rfc1055, p) + x;
    DoubleEndShape(s, p, x);
    assert [] + p == p && [s] == [s] + [];
    ChunkArrives(Unknown, [], s, [], SLIP_MAX_BUFFER);
    OpenFrame(Unknown, [END] + body, [], SLIP_MAX_BUFFER);
    RepeatedEndSkipped(body, [], SLIP_MAX_BUFFER);
    RunEscapedFromStart([], p, x, [], SLIP_MAX_BUFFER);
    LoneEndAfter([] + p, [], [], SLIP_MAX_BUFFER);
  }

  /** The byte-level layout of vector 6. */
  lemma DoubleEndShape(s: seq<bv8>, p: seq<bv8>, x: seq<bv8>)
    requires s == [END, END, 0x02, END] && p == s[2..3] && x == [END] + []
    ensures p == [0x02]
    ensures s == [END] + ([END] + (Escape(Rfc1055, p) + x))
  {
    assert p == [p[0]];
    EscapeSingle(Rfc1055, p[0]);
  }

  /** An END in DECODING returns what was written. */
  lemma LoneEndAfter(out: seq<bv8>, rest: seq<bv8>, inc: seq<seq<bv8>>, length: nat)
    requires |out| < length
    ensures Run(Decoding, out, [END] + rest, inc, length) == Rx(Received, out, FrameEnd, rest, inc)
  {
    assert ([END] + rest)[0] == END && ([END] + rest)[1..] == rest;
  }

  /** Vectors 7 and 8: two frames in one chunk, the second read by the
      next call from the ring; in vector 8 the second frame is empty. */
  lemma ReceiveVectorsTwoFrames(s: seq<bv8>, t: seq<bv8>)
    requires s == [END, 0x02, END, END, 0x01, END] && t == [END, 0x02, END, END, END]
    ensures var first := Receive(Unknown, [], [s], SLIP_MAX_BUFFER);
      first.outcome == Received && first.out == [0x02] &&
      Receive(first.state, first.ring, first.incoming, SLIP_MAX_BUFFER) == Rx(Received, [0x01], FrameEnd, [], [])
    ensures var first := Receive(Unknown, [], [t], SLIP_MAX_BUFFER);
      first.outcome == Received && first.out == [0x02] &&
      Receive(first.state, first.ring, first.incoming, SLIP_MAX_BUFFER) == Rx(Received, [], FrameEnd, [], [])
  {
    var p, q, e := s[1..2], s[4..5], s[1..1];
    TwoFramesShape(s, t, p, q, e);
    assert [s] == [Frame(Rfc1055, p) + Frame(Rfc1055, q)] + [];
    assert [t] == [Frame(Rfc1055, p) + Frame(Rfc1055, e)] + [];
    ReadAhead(p, q, [], SLIP_MAX_BUFFER);
    ReadAhead(p, e, [], SLIP_MAX_BUFFER);
  }

  /** The byte-level layout of vectors 7 and 8. */
  lemma TwoFramesShape(s: seq<bv8>, t: seq<bv8>, p: seq<bv8>, q: seq<bv8>, e: seq<bv8>)
    requires s == [END, 0x02, END, END, 0x01, END] && t == [END, 0x02, END, END, END]
    requires p == s[1..2] && q == s[4..5] && e == []
    ensures p == [0x02] && q == [0x01]
    ensures s == Frame(Rfc1055, p) + Frame(Rfc1055, q)
    ensures t == Frame(Rfc1055, p) + Frame(Rfc1055, e)
  {
    FramePlainByte(p);
    FramePlainByte(q);
    assert Frame(Rfc1055, e) == [END, END] by {
      assert Escape(Rfc1055, e) == [];
    }
    assert s == [END, 0x02, END] + [END, 0x01, END];
    assert t == [END, 0x02, END] + [END, END];
  }

  /** The frame of one byte that needs no escape. */
  lemma FramePlainByte(p: seq<bv8>)
    requires |p| == 1 && !Reserved(Rfc1055, p[0])
    ensures Frame(Rfc1055, p) == [END, p[0], END]
  {
    FrameSingle(p);
  }

  /** Vector 9: after a frame, a stray byte before the next END is a lost
      frame start; the next call skips it and returns the frame after. */
  lemma ReceiveVectorLostStart(s: seq<bv8>)
    requires s == [END, 0x02, END, 0x03, END, END, 0x01, END]
    ensures var first := Receive(Unknown, [], [s], SLIP_MAX_BUFFER);
      first.outcome == Received && first.out == [0x02] &&
      Receive(first.state, first.ring, first.incoming, SLIP_MAX_BUFFER) == Rx(Received, [0x01], FrameEnd, [], [])
  {
    var p, junk, f1, q, rest := s[1..2], s[3..4], s[5..], s[6..7], s[3..];
    LostStartShape(s, p, junk, f1, q, rest);
    assert f1 == Frame(Rfc1055, q) + [] && [s] == [s] + [];
    ChunkArrives(Unknown, [], s, [], SLIP_MAX_BUFFER);
    ReceiveOneFrame(Unknown, p, rest, [], SLIP_MAX_BUFFER);
    ErrorSkipped(FrameEnd, junk, f1, [], SLIP_MAX_BUFFER);
    ReceiveOneFrame(FrameEnd, q, [], [], SLIP_MAX_BUFFER);
  }

  /** The byte-level layout of vector 9. */
  lemma LostStartShape(s: seq<bv8>, p: seq<bv8>, junk: seq<bv8>, f1: seq<bv8>, q: seq<bv8>, rest: seq<bv8>)
    requires s == [END, 0x02, END, 0x03, END, END, 0x01, END]
    requires p == s[1..2] && junk == s[3..4] && f1 == s[5..] && q == s[6..7] && rest == s[3..]
    ensures p == [0x02] && q == [0x01] && END !in junk
    ensures s == Frame(Rfc1055, p) + rest && rest == junk + ([END] + f1)
    ensures f1 == Frame(Rfc1055, q)
  {
    FramePlainByte(p);
    FramePlainByte(q);
  }

  // Receiving: no byte is lost or read twice

  /** All bytes still to be read: the ring, then the chunks in order. */
  function Pending(ring: seq<bv8>, inc: seq<seq<bv8>>): seq<bv8>
    decreases |inc|
  {
    if inc == [] then ring else Pending(ring + inc[0], inc[1..])
  }

  /** `a` is what is left of `b` after some bytes were read from its front. */
  predicate SuffixOf(a: seq<bv8>, b: seq<bv8>) {
    |a| <= |b| && b[|b| - |a|..] == a
  }

  /** Pending bytes after dropping the front of the ring. */
  lemma {:induction false} PendingSuffix(ring: seq<bv8>, k: nat, inc: seq<seq<bv8>>)
    requires k <= |ring|
    decreases |inc|
    ensures SuffixOf(Pending(ring[k..], inc), Pending(ring, inc))
  {
    if inc != [] {
      assert ring[k..] + inc[0] == (ring + inc[0])[k..];
      PendingSuffix(ring + inc[0], k, inc[1..]);
    }
  }

  /** Byte for byte, the receiver reads its input in order: whatever a call
      leaves unread is what followed the bytes it read. */
  lemma {:induction false} RunKeepsOrder(state: State, out: seq<bv8>, ring: seq<bv8>, inc: seq<seq<bv8>>, length: nat)
    requires |out| < length
    requires forall i :: 0 <= i < |inc| ==> |inc[i]| <= SLIP_MAX_BUFFER
    decreases |inc|, |ring|
    ensures var r := Run(state, out, ring, inc, length);
      SuffixOf(Pending(r.ring, r.incoming), Pending(ring, inc))
  {
    if ring == [] {
      if inc != [] {
        assert [] + inc[0] == PutForce([], inc[0]);
        RunKeepsOrder(state, out, inc[0], inc[1..], length);
      }
    } else {
      var f := Feed(state, out, ring[0], ring[1..]);
      if !f.Abort? {
        FeedKeepsOrder(state, out, ring, inc, length);
        if f.Next? && |f.out| < length {
          var r := Run(f.state, f.out, f.rest, inc, length);
          RunKeepsOrder(f.state, f.out, f.rest, inc, length);
          SuffixTransitive(Pending(r.ring, r.incoming), Pending(f.rest, inc), Pending(ring, inc));
        }
      }
    }
  }

  /** One byte read from the ring leaves the rest of the pending bytes. */
  lemma FeedKeepsOrder(state: State, out: seq<bv8>, ring: seq<bv8>, inc: seq<seq<bv8>>, length: nat)
    requires ring != [] && !Feed(state, out, ring[0], ring[1..]).Abort?
    ensures SuffixOf(Pending(Feed(state, out, ring[0], ring[1..]).rest, inc), Pending(ring, inc))
  {
    var f := Feed(state, out, ring[0], ring[1..]);
    FeedLeavesSuffix(state, out, ring, length);
    PendingSuffix(ring, |ring| - |f.rest|, inc);
  }

  /** What is left of what is left of `c` is what is left of `c`. */
  lemma SuffixTransitive(a: seq<bv8>, b: seq<bv8>, c: seq<bv8>)
    requires SuffixOf(a, b) && SuffixOf(b, c)
    ensures SuffixOf(a, c)
  {
    assert c[|c| - |a|..] == c[|c| - |b|..][|b| - |a|..];
  }

  /** A byte that does not abort leaves the tail of the ring past it (or
      past it and its escape code). */
  lemma FeedLeavesSuffix(state: State, out: seq<bv8>, ring: seq<bv8>, length: nat)
    requires ring != []
    ensures var f := Feed(state, out, ring[0], ring[1..]);
      !f.Abort? ==> |f.rest| <= |ring| && f.rest == ring[|ring| - |f.rest|..]
  {
  }
}
