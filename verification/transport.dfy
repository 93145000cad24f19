/** The legacy transport handler (the root slip.c): frames are sent through
    a `send` callback from a 100-byte stack buffer, and received by pulling
    chunks from a `recv` callback into a 100-byte ring buffer that is
    drained one byte at a time through a five-state machine. This revision
    escapes only END and ESC (the RFC 1055 table). */
module Transport {
  import opened Wire

  /** The size of the send buffer, of the receive staging buffer and of
      the ring buffer. */
  const SLIP_MAX_BUFFER: nat := 100

  /** The receiver's five states. */
  datatype State = Unknown | FrameStart | Decoding | FrameEnd | Error

  /** The ring buffer's `put_force`: append `data`, dropping the oldest
      bytes beyond the capacity. */
  function PutForce(ring: seq<bv8>, data: seq<bv8>): (r: seq<bv8>)
    ensures |r| == if |ring| + |data| <= SLIP_MAX_BUFFER then |ring| + |data| else SLIP_MAX_BUFFER
    ensures |ring| + |data| <= SLIP_MAX_BUFFER ==> r == ring + data
    ensures r == (ring + data)[|ring| + |data| - |r|..]
  {
    var all := ring + data;
    if |all| <= SLIP_MAX_BUFFER then all else all[|all| - SLIP_MAX_BUFFER..]
  }

  // Sending

  /** END and the escaped payload: what the send loop would write into a
      buffer without bound. */
  function Unclipped(p: seq<bv8>): seq<bv8> {
    [END] + Escape(Rfc1055, p)
  }

  /** The first `SLIP_MAX_BUFFER - 1` bytes of `w`: what fits before the
      closing END. */
  function Clip(w: seq<bv8>): seq<bv8> {
    if |w| < SLIP_MAX_BUFFER - 1 then w else w[..SLIP_MAX_BUFFER - 1]
  }

  /** What `slip_send_frame` hands to `send` for payload `p`: END and the
      escaped payload, cut off after 99 bytes, then END. */
  function SendBuffer(p: seq<bv8>): (f: seq<bv8>)
    ensures 2 <= |f| <= SLIP_MAX_BUFFER
    ensures f[0] == END && f[|f| - 1] == END
  {
    Clip(Unclipped(p)) + [END]
  }

  // Receiving

  /** What one popped byte does: `Next` keeps draining, `Done` returns a
      frame, `Abort` is the failed assertion on the byte after ESC. `out` is
      the caller's buffer up to `idx`, `rest` the ring after the byte. */
  datatype Fed =
    | Next(state: State, out: seq<bv8>, rest: seq<bv8>)
    | Done(state: State, out: seq<bv8>, rest: seq<bv8>)
    | Abort

  /** A byte in the DECODING state. ESC takes the next ring byte at once;
      an empty ring leaves the byte read as ESC, which the assertion
      rejects like any byte other than ESC_END and ESC_ESC. */
  function DecodeChar(out: seq<bv8>, ch: bv8, rest: seq<bv8>): (f: Fed)
    ensures f.Next? ==> f.state == Decoding && |f.out| == |out| + 1 && |f.rest| <= |rest|
    ensures f.Done? <==> ch == END
    ensures f.Done? ==> f == Done(FrameEnd, out, rest)
    ensures f.Abort? <==> ch == ESC && (rest == [] || UnescapeByte(Rfc1055, rest[0]).None?)
  {
    if ch == ESC then
      if rest == [] then Abort
      else match UnescapeByte(Rfc1055, rest[0])
        case None => Abort
        case Some(b) => Next(Decoding, out + [b], rest[1..])
    else if ch == END then Done(FrameEnd, out, rest)
    else Next(Decoding, out + [ch], rest)
  }

  /** The switch of `slip_receive_frame` for one byte `ch`. */
  function Feed(state: State, out: seq<bv8>, ch: bv8, rest: seq<bv8>): (f: Fed)
    ensures f.Next? ==> |out| <= |f.out| <= |out| + 1 && f.out[..|out|] == out && |f.rest| <= |rest|
    ensures f.Done? ==> f == Done(FrameEnd, out, rest)
    ensures f.Done? || f.Abort? ==> state == FrameStart || state == Decoding
  {
    match state
    case Unknown => Next(if ch == END then FrameStart else Unknown, out, rest)
    case FrameStart => if ch == END then Next(FrameStart, out, rest) else DecodeChar(out, ch, rest)
    case Decoding => DecodeChar(out, ch, rest)
    case FrameEnd => Next(if ch == END then Decoding else Error, out, rest)
    case Error => Next(if ch == END then FrameEnd else Error, out, rest)
  }

  /** How a call ends: a frame, -1 for a full buffer, the chunk script
      running out while the call still polls `recv`, or the failed
      assertion. */
  datatype Outcome = Received | TooSmall | Starved | Aborted

  /** A whole call: the outcome, the bytes written to the caller's buffer,
      and the state, ring and unread chunks it leaves. */
  datatype Rx = Rx(outcome: Outcome, out: seq<bv8>, state: State, ring: seq<bv8>, incoming: seq<seq<bv8>>)

  /** The rest of a call that has written `out`, holds `ring` and will be
      given `incoming` by `recv`. With an empty ring the outer loop polls
      `recv` (an empty chunk stands for a `recv` returning 0 or less, after
      which it polls again) and puts the chunk into the ring; otherwise the
      inner loop pops one byte and, unless that ends the call, checks
      `idx >= length`. */
  function Run(state: State, out: seq<bv8>, ring: seq<bv8>, incoming: seq<seq<bv8>>, length: nat): (r: Rx)
    requires |out| < length
    decreases |incoming|, |ring|
    ensures r.outcome == Received ==> |r.out| < length && r.state == FrameEnd
    ensures r.outcome == TooSmall ==> |r.out| == length
    ensures r.outcome == Starved ==> |r.out| < length && r.ring == [] && r.incoming == []
    ensures r.outcome != Aborted ==> |out| <= |r.out| && r.out[..|out|] == out
  {
    if ring == [] then
      if incoming == [] then Rx(Starved, out, state, [], [])
      else Run(state, out, PutForce([], incoming[0]), incoming[1..], length)
    else match Feed(state, out, ring[0], ring[1..])
      case Abort => Rx(Aborted, out, state, ring, incoming)
      case Done(s, o, rest) => Rx(Received, o, s, rest, incoming)
      case Next(s, o, rest) =>
        if |o| >= length then Rx(TooSmall, o, s, rest, incoming)
        else Run(s, o, rest, incoming, length)
  }

  /** `slip_receive_frame` on a handler in `state` holding `ring`, with
      `incoming` the chunks `recv` will deliver and `length` the caller's
      buffer size. A non-empty ring is drained first: `recv` is polled only
      when the ring is empty. */
  function Receive(state: State, ring: seq<bv8>, incoming: seq<seq<bv8>>, length: nat): (r: Rx)
    requires 0 < length
    ensures r.outcome == Received ==> |r.out| < length && r.state == FrameEnd
    ensures r.outcome == TooSmall ==> |r.out| == length
    ensures r.outcome == Starved ==> |r.out| < length && r.ring == [] && r.incoming == []
  {
    Run(state, [], ring, incoming, length)
  }

  /** What `slip_receive_frame` reports: its return value and what it wrote
      to `*recv_length` (None: left untouched), or `StillWaiting` when the
      chunk script ran out while the call was still polling `recv`. */
  datatype RecvResult = Returned(code: int, recvLength: Option<uint16>) | StillWaiting

  /** The report of a call that does not fail its assertion. */
  function Report(rx: Rx): RecvResult
    requires |rx.out| < 0x1_0000
  {
    match rx.outcome
    case Received => Returned(0, Some(|rx.out|))
    case TooSmall => Returned(-1, None)
    case _ => StillWaiting
  }

  /** The `send` and `recv` callbacks of `struct slip_config`: `send`
      records each buffer it is given; `recv` delivers a script of chunks of
      at most `SLIP_MAX_BUFFER` bytes. */
  class Link {
    var sent: seq<seq<bv8>>
    var incoming: seq<seq<bv8>>

    ghost predicate Valid()
      reads this
    {
      forall i :: 0 <= i < |incoming| ==> |incoming[i]| <= SLIP_MAX_BUFFER
    }

    constructor (script: seq<seq<bv8>>)
      requires forall i :: 0 <= i < |script| ==> |script[i]| <= SLIP_MAX_BUFFER
      ensures Valid() && sent == [] && incoming == script
    {
      sent := [];
      incoming := script;
    }

    /** `send(buffer, length)`. */
    method Send(data: seq<bv8>)
      modifies this
      ensures sent == old(sent) + [data] && incoming == old(incoming)
    {
      sent := sent + [data];
    }

    /** `recv(temp_buf, SLIP_MAX_BUFFER)`: the next chunk, or None once the
      script has run out. */
    method Recv() returns (chunk: Option<seq<bv8>>)
      requires Valid()
      modifies this
      ensures Valid() && sent == old(sent)
      ensures old(incoming) == [] ==> chunk == None && incoming == []
      ensures old(incoming) != [] ==> chunk == Some(old(incoming)[0]) && incoming == old(incoming)[1..]
    {
      if incoming == [] {
        return None;
      }
      chunk := Some(incoming[0]);
      incoming := incoming[1..];
    }
  }

  /** `struct slip`: the receive state, the ring buffer's contents and the
      configuration. */
  class Handler {
    var state: State
    var ring: seq<bv8>
    var config: Link?

    ghost predicate Valid()
      reads this, config
    {
      |ring| <= SLIP_MAX_BUFFER && (config != null ==> config.Valid())
    }

    /** A zero-initialised `struct slip`. */
    constructor ()
      ensures Valid() && state == Unknown && ring == [] && config == null
    {
      state := Unknown;
      ring := [];
      config := null;
    }

    /** `slip_init`: unknown state, empty ring, adopt the configuration. The
        asserted non-NULL arguments are non-null types here. */
    method Init(cfg: Link) returns (r: int)
      requires cfg.Valid()
      modifies this
      ensures Valid() && r == 0
      ensures state == Unknown && ring == [] && config == cfg
    {
      state := Unknown;
      ring := [];
      config := cfg;
      return 0;
    }

    /** `slip_reset`: unknown state and an empty ring; the configuration
        stays. */
    method Reset()
      requires Valid()
      modifies this
      ensures Valid() && state == Unknown && ring == [] && config == old(config)
    {
      state := Unknown;
      ring := [];
    }

    /** `slip_send_frame`: hand `SendBuffer(buffer[..length])` to `send`
        once and return 0. */
    method SendFrame(buffer: array<bv8>, length: uint16) returns (r: int)
      requires Valid() && config != null && length as int <= buffer.Length
      modifies config
      ensures Valid() && r == 0
      ensures config.sent == old(config.sent) + [SendBuffer(buffer[..length])]
      ensures config.incoming == old(config.incoming)
    {
      var sendBuffer, idx := EncodeTruncated(buffer[..length]);
      ghost var w := sendBuffer[..idx];
      sendBuffer[idx] := END;
      idx := idx + 1;
      assert sendBuffer[..idx] == w + [END];
      config.Send(sendBuffer[..idx]);
      return 0;
    }

    /** `slip_receive_frame`: drain the ring and then `recv`'s chunks
        through the state machine until a frame ends or the caller's buffer
        is full. The assertion on the byte after ESC becomes the requirement
        that the call does not reach it with another byte. */
    method ReceiveFrame(buffer: array<bv8>, length: uint16) returns (result: RecvResult)
      requires Valid() && config != null && 0 < length as int <= buffer.Length
      requires Receive(state, ring, config.incoming, length as nat).outcome != Aborted
      modifies this, config, buffer
      ensures Valid() && config == old(config) && config.sent == old(config.sent)
      ensures var rx := Receive(old(state), old(ring), old(config.incoming), length as nat);
        state == rx.state && ring == rx.ring && config.incoming == rx.incoming &&
        |rx.out| <= length as int && buffer[..|rx.out|] == rx.out &&
        (forall k :: |rx.out| <= k < buffer.Length ==> buffer[k] == old(buffer[k])) &&
        result == Report(rx)
    {
      ghost var rx := Receive(state, ring, config.incoming, length as nat);
      var idx: uint16 := 0;
      var chunk: seq<bv8> := [];
      while true
        invariant Valid() && config == old(config) && config.sent == old(config.sent)
        invariant idx < length
        invariant ring != [] ==> chunk == []
        invariant Run(state, buffer[..idx], ring, config.incoming, length as nat) == rx
        invariant forall k :: idx as int <= k < buffer.Length ==> buffer[k] == old(buffer[k])
        decreases |config.incoming|, |ring|
      {
        var res;
        idx, chunk, res := OuterTurn(buffer, length, idx, chunk);
        if res.Some? {
          return res.value;
        }
      }
    }

    /** One turn of the outer `while (1)` loop: with an empty ring, poll
        `recv` (and poll again at once when it delivers nothing); put the
        chunk into the ring; drain the ring. `chunk0` is what `temp_buf`
        holds, empty while the ring is not. The call either ends, reported
        as `Run` says, or goes on with the same rest of the call and
        something less to read. */
    method OuterTurn(buffer: array<bv8>, length: uint16, idx0: uint16, chunk0: seq<bv8>)
      returns (idx: uint16, chunk: seq<bv8>, res: Option<RecvResult>)
      requires Valid() && config != null && idx0 < length && length as int <= buffer.Length
      requires ring != [] ==> chunk0 == []
      requires Run(state, buffer[..idx0], ring, config.incoming, length as nat).outcome != Aborted
      modifies this`state, this`ring, config, buffer
      ensures Valid() && config.sent == old(config.sent) && idx0 <= idx <= length
      ensures var r := Run(old(state), old(buffer[..idx0]), old(ring), old(config.incoming), length as nat);
        if res.None? then
          idx < length && (ring != [] ==> chunk == []) &&
          Run(state, buffer[..idx], ring, config.incoming, length as nat) == r &&
          (|config.incoming| < |old(config.incoming)| ||
           (config.incoming == old(config.incoming) && |ring| < |old(ring)|))
        else
          res.value == Report(r) && state == r.state && ring == r.ring &&
          config.incoming == r.incoming && buffer[..idx] == r.out
      ensures forall k :: idx as int <= k < buffer.Length ==> buffer[k] == old(buffer[k])
    {
      if |ring| == 0 {
        idx, chunk, res := PollTurn(buffer, length, idx0);
      } else {
        assert ring + chunk0 == ring;
        ring := PutForce(ring, chunk0);
        idx, res := DrainRing(buffer, length, idx0);
        chunk := chunk0;
      }
    }

    /** The turn with an empty ring: `recv` a chunk, put it into the ring
        and drain it. */
    method PollTurn(buffer: array<bv8>, length: uint16, idx0: uint16)
      returns (idx: uint16, chunk: seq<bv8>, res: Option<RecvResult>)
      requires Valid() && config != null && idx0 < length && length as int <= buffer.Length
      requires ring == []
      requires Run(state, buffer[..idx0], ring, config.incoming, length as nat).outcome != Aborted
      modifies this`state, this`ring, config, buffer
      ensures Valid() && config.sent == old(config.sent) && idx0 <= idx <= length
      ensures var r := Run(old(state), old(buffer[..idx0]), [], old(config.incoming), length as nat);
        if res.None? then
          idx < length && (ring != [] ==> chunk == []) &&
          Run(state, buffer[..idx], ring, config.incoming, length as nat) == r &&
          |config.incoming| < |old(config.incoming)|
        else
          res.value == Report(r) && state == r.state && ring == r.ring &&
          config.incoming == r.incoming && buffer[..idx] == r.out
      ensures forall k :: idx as int <= k < buffer.Length ==> buffer[k] == old(buffer[k])
    {
      idx, chunk, res := idx0, [], None;
      ghost var out := buffer[..idx];
      ghost var r := Run(state, out, [], config.incoming, length as nat);
      var got := Poll(out, length);
      if got.None? {
        return idx, chunk, Some(StillWaiting);
      }
      chunk := got.value;
      if |chunk| == 0 {
        return;
      }
      ring := PutForce(ring, chunk);
      assert Run(state, out, ring, config.incoming, length as nat) == r;
      idx, res := DrainRing(buffer, length, idx);
    }

    /** `recv` into `temp_buf` while the ring is empty: the chunk, which
        leaves the call where an empty ring and the rest of the script
        would, or None once the script has run out. */
    method Poll(ghost out: seq<bv8>, length: uint16) returns (chunk: Option<seq<bv8>>)
      requires Valid() && config != null && |out| < length as int
      modifies config
      ensures Valid() && config.sent == old(config.sent)
      ensures chunk.None? <==> old(config.incoming) == []
      ensures chunk.None? ==> config.incoming == []
      ensures chunk.Some? ==> |chunk.value| <= SLIP_MAX_BUFFER && |config.incoming| < |old(config.incoming)|
      ensures chunk.Some? ==> Run(state, out, [], old(config.incoming), length as nat)
                              == Run(state, out, PutForce([], chunk.value), config.incoming, length as nat)
    {
      chunk := config.Recv();
    }

    /** The inner `while (rt_ringbuffer_data_len(rb) > 0)` loop: it leaves
        the call where `Run` leaves it, or with an empty ring and the same
        rest of the call. */
    method DrainRing(buffer: array<bv8>, length: uint16, idx0: uint16) returns (idx: uint16, res: Option<RecvResult>)
      requires Valid() && config != null && idx0 < length && length as int <= buffer.Length
      requires Run(state, buffer[..idx0], ring, config.incoming, length as nat).outcome != Aborted
      modifies this`state, this`ring, buffer
      ensures Valid() && idx0 <= idx <= length
      ensures var r := Run(old(state), old(buffer[..idx0]), old(ring), config.incoming, length as nat);
        if res.None? then
          ring == [] && idx < length && Run(state, buffer[..idx], ring, config.incoming, length as nat) == r
        else
          res.value == Report(r) && state == r.state && ring == r.ring && buffer[..idx] == r.out &&
          config.incoming == r.incoming
      ensures forall k :: idx as int <= k < buffer.Length ==> buffer[k] == old(buffer[k])
    {
      ghost var r := Run(state, buffer[..idx0], ring, config.incoming, length as nat);
      idx := idx0;
      while |ring| > 0
        invariant Valid() && idx0 <= idx < length
        invariant Run(state, buffer[..idx], ring, config.incoming, length as nat) == r
        invariant forall k :: idx as int <= k < buffer.Length ==> buffer[k] == old(buffer[k])
        decreases |ring|
      {
        var ch := ring[0];
        ring := ring[1..];
        var done;
        idx, done := ProcessChar(buffer, length, idx, ch);
        if done {
          return idx, Some(Returned(0, Some(idx)));
        }
        if idx >= length {
          return idx, Some(Returned(-1, None));
        }
      }
      return idx, None;
    }

    /** The `switch (handler->state)` for one byte `ch` already popped from
        the ring. FRAME_START falls through into DECODING on any byte but
        END. */
    method ProcessChar(buffer: array<bv8>, length: uint16, idx0: uint16, ch: bv8) returns (idx: uint16, done: bool)
      requires Valid() && idx0 < length && length as int <= buffer.Length
      requires !Feed(state, buffer[..idx0], ch, ring).Abort?
      modifies this`state, this`ring, buffer
      ensures Valid() && idx0 <= idx <= length
      ensures var f := Feed(old(state), old(buffer[..idx0]), ch, old(ring));
        (done <==> f.Done?) && state == f.state && ring == f.rest && buffer[..idx] == f.out
      ensures forall k :: idx as int <= k < buffer.Length ==> buffer[k] == old(buffer[k])
    {
      idx, done := idx0, false;
      var decode := state == Decoding;
      if state == Unknown {
        if ch == END {
          state := FrameStart;
        }
      } else if state == FrameStart {
        if ch != END {
          state := Decoding;
          decode := true;
        }
      } else if state == FrameEnd {
        state := if ch == END then Decoding else Error;
      } else if state == Error {
        if ch == END {
          state := FrameEnd;
        }
      }
      if decode {
        idx, done := DecodeInto(buffer, length, idx, ch);
      }
    }

    /** The DECODING case: ESC takes the next ring byte, END completes the
        frame, anything else is stored. */
    method DecodeInto(buffer: array<bv8>, length: uint16, idx0: uint16, ch: bv8) returns (idx: uint16, done: bool)
      requires Valid() && state == Decoding && idx0 < length && length as int <= buffer.Length
      requires !DecodeChar(buffer[..idx0], ch, ring).Abort?
      modifies this`state, this`ring, buffer
      ensures Valid() && idx0 <= idx <= length
      ensures var f := DecodeChar(old(buffer[..idx0]), ch, old(ring));
        (done <==> f.Done?) && state == f.state && ring == f.rest && buffer[..idx] == f.out
      ensures forall k :: idx as int <= k < buffer.Length ==> buffer[k] == old(buffer[k])
    {
      idx, done := idx0, false;
      if ch == ESC {
        var c := ch;
        if |ring| > 0 {
          c := ring[0];
          ring := ring[1..];
        }
        assert c == ESC_END || c == ESC_ESC;
        buffer[idx] := if c == ESC_END then END else ESC;
        idx := idx + 1;
      } else if ch == END {
        state := FrameEnd;
        done := true;
      } else {
        buffer[idx] := ch;
        idx := idx + 1;
      }
    }
  }

  /** The loop of `slip_send_frame` into a fresh `SLIP_MAX_BUFFER`-byte
      buffer, leaving room for the closing END. */
  method EncodeTruncated(p: seq<bv8>) returns (sendBuffer: array<bv8>, idx: uint16)
    requires |p| < 0x1_0000
    ensures fresh(sendBuffer) && sendBuffer.Length == SLIP_MAX_BUFFER
    ensures idx < SLIP_MAX_BUFFER && sendBuffer[..idx] == Clip(Unclipped(p))
  {
    sendBuffer := new bv8[SLIP_MAX_BUFFER];
    idx := 0;
    sendBuffer[idx] := END;
    idx := idx + 1;
    var i := 0;
    while i < |p|
      invariant i <= |p| && 1 <= idx < SLIP_MAX_BUFFER - 1
      invariant sendBuffer[..idx] == Unclipped(p[..i])
    {
      var full;
      idx, full := PutTruncated(sendBuffer, idx, p, i);
      if full {
        ClipExtends(p, i + 1);
        return;
      }
      i := i + 1;
    }
    assert sendBuffer[..idx] == Clip(Unclipped(p)) by {
      assert p[..i] == p;
    }
  }

  /** One turn of the send loop: payload byte `i` escaped, with the check
      after each write that stops the loop once index 99 is reached. `full`
      says the loop breaks. */
  method PutTruncated(b: array<bv8>, idx0: uint16, p: seq<bv8>, i: nat) returns (idx: uint16, full: bool)
    requires i < |p| && b.Length == SLIP_MAX_BUFFER && 1 <= idx0 < SLIP_MAX_BUFFER - 1
    requires b[..idx0] == Unclipped(p[..i])
    modifies b
    ensures !full ==> idx < SLIP_MAX_BUFFER - 1 && b[..idx] == Unclipped(p[..i + 1])
    ensures full ==> idx == SLIP_MAX_BUFFER - 1 && b[..idx] == Clip(Unclipped(p[..i + 1]))
    ensures full ==> |Unclipped(p[..i + 1])| >= SLIP_MAX_BUFFER - 1
  {
    ghost var w := Unclipped(p[..i]);
    ghost var e := EscapeByte(Rfc1055, p[i]);
    UnclippedStep(p, i);
    idx := idx0;
    var c := p[i];
    if c == END {
      idx := Put(b, idx, ESC);
      c := ESC_END;
    } else if c == ESC {
      idx := Put(b, idx, ESC);
      c := ESC_ESC;
    }
    assert b[..idx] == w + e[..|e| - 1] && c == e[|e| - 1];
    if idx >= SLIP_MAX_BUFFER - 1 {
      assert (w + e)[..SLIP_MAX_BUFFER - 1] == w + e[..|e| - 1];
      return idx, true;
    }
    idx := Put(b, idx, c);
    assert w + e == (w + e[..|e| - 1]) + [c];
    full := idx >= SLIP_MAX_BUFFER - 1;
  }

  /** `b[idx++] = x`. */
  method Put(b: array<bv8>, idx0: uint16, x: bv8) returns (idx: uint16)
    requires idx0 < b.Length <= SLIP_MAX_BUFFER
    modifies b
    ensures idx == idx0 + 1 && b[..idx] == old(b[..idx0]) + [x]
  {
    b[idx0] := x;
    idx := idx0 + 1;
  }

  /** Once 99 bytes are out, further payload bytes change nothing. */
  lemma ClipExtends(p: seq<bv8>, i: nat)
    requires i <= |p| && |Unclipped(p[..i])| >= SLIP_MAX_BUFFER - 1
    ensures Clip(Unclipped(p[..i])) == Clip(Unclipped(p))
  {
    assert p == p[..i] + p[i..];
    EscapeAppend(Rfc1055, p[..i], p[i..]);
    Assoc([END], Escape(Rfc1055, p[..i]), Escape(Rfc1055, p[i..]));
  }

  /** The send loop's output grows by one escaped byte per payload byte. */
  lemma UnclippedStep(p: seq<bv8>, i: nat)
    requires i < |p|
    ensures Unclipped(p[..i + 1]) == Unclipped(p[..i]) + EscapeByte(Rfc1055, p[i])
  {
    EscapePrefixStep(Rfc1055, p, i);
    Assoc([END], Escape(Rfc1055, p[..i]), EscapeByte(Rfc1055, p[i]));
  }
}
