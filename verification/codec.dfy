/** The encoder/decoder library (src/slip.c): one `slip_t` context serves as
    a framing encoder or as an incremental decoder, over a caller-supplied
    buffer of fixed length, with the three-wire escape table. */
module Codec {
  import opened Wire

  /** Return codes; the functions return their negation on failure. */
  const SLIP_SUCCESS := 0
  const SLIP_ERROR := 1
  const SLIP_TYPE_ERROR := 2
  const SLIP_NOMEMORY := 3

  /** What a context has been initialised as (`SLIP_NONE` and friends). */
  datatype Kind = NoKind | Encoder | Decoder

  /** The decoder's four states. */
  datatype DecoderState = Unknown | FrameStart | Decoding | Escaping

  /** What a decoder context means: its state, the bytes accumulated so far
      (`buf[..idx]`) and the frame-ready flag. */
  datatype DecoderView = DecoderView(state: DecoderState, frame: seq<bv8>, hasFrame: bool)

  /** A decoder before any byte: what `slip_decoder_init` leaves. */
  const Fresh := DecoderView(Unknown, [], false)

  datatype Stepped = Stepped(view: DecoderView, status: int)

  /** One byte in the DECODING state: END completes the frame, ESC opens an
      escape, anything else is data. */
  function DecodeByte(d: DecoderView, c: bv8): (r: DecoderView)
    ensures r.hasFrame <==> d.hasFrame || c == END
    ensures r.frame == if c == END || c == ESC then d.frame else d.frame + [c]
  {
    if c == END then d.(hasFrame := true, state := Unknown)
    else if c == ESC then d.(state := Escaping)
    else d.(frame := d.frame + [c], state := Decoding)
  }

  /** The reference for `slip_decoder_process_byte` on a buffer of `cap`
      bytes: the new meaning of the context and the status returned. */
  function Step(d: DecoderView, cap: nat, c: bv8): (r: Stepped)
    ensures |d.frame| <= cap ==> |r.view.frame| <= cap
    ensures d.hasFrame ==> r.view.hasFrame
    ensures r.status == SLIP_SUCCESS || r.status == -SLIP_ERROR || r.status == -SLIP_NOMEMORY
    ensures r.status == -SLIP_NOMEMORY <==> |d.frame| >= cap
    ensures r.status == -SLIP_NOMEMORY ==> r.view == d
    ensures r.status == -SLIP_ERROR ==> r.view == d.(frame := [], state := Unknown)
  {
    if |d.frame| >= cap then Stepped(d, -SLIP_NOMEMORY)
    else match d.state
      case Unknown =>
        Stepped(if c == END then d.(state := FrameStart) else d, SLIP_SUCCESS)
      case FrameStart =>
        Stepped(if c == END then d else DecodeByte(d, c), SLIP_SUCCESS)
      case Decoding =>
        Stepped(DecodeByte(d, c), SLIP_SUCCESS)
      case Escaping =>
        match UnescapeByte(ThreeWire, c)
        case Some(b) => Stepped(d.(frame := d.frame + [b], state := Decoding), SLIP_SUCCESS)
        case None => Stepped(d.(frame := [], state := Unknown), -SLIP_ERROR)
  }

  datatype Ran = Ran(view: DecoderView, ok: bool)

  /** Feeding `bytes` one at a time; `ok` says every call returned SUCCESS. */
  function Run(d: DecoderView, cap: nat, bytes: seq<bv8>): (r: Ran)
    decreases |bytes|
    ensures |d.frame| <= cap ==> |r.view.frame| <= cap
    ensures d.hasFrame ==> r.view.hasFrame
  {
    if bytes == [] then Ran(d, true)
    else
      var s := Step(d, cap, bytes[0]);
      var rest := Run(s.view, cap, bytes[1..]);
      Ran(rest.view, s.status == SLIP_SUCCESS && rest.ok)
  }

  /** The loop of `slip_encoder_process`: restart at index 0, write END,
      then each payload byte escaped, stopping before a byte that would start
      at or after index `len - 1`. Returns the write index and the number of
      payload bytes written. */
  method EscapeInto(b: array<bv8>, len: uint16, p: seq<bv8>) returns (i: uint16, cur: nat)
    requires 0 < len <= b.Length && |p| < 0x1_0000
    modifies b
    ensures 1 <= i <= len && cur <= |p|
    ensures b[..i] == [END] + Escape(ThreeWire, p[..cur])
    ensures cur < |p| ==> len - 1 <= i
    ensures cur > 0 ==> 1 + |Escape(ThreeWire, p[..cur - 1])| < len - 1
    ensures forall k :: i <= k < b.Length ==> b[k] == old(b[k])
  {
    i := 0;
    b[i] := END;
    i := i + 1;
    cur := 0;
    // the loop's leading `if (idx >= len - 1) break;` folded into its guard
    while cur < |p| && i < len - 1
      invariant cur <= |p| && 1 <= i <= len
      invariant b[..i] == [END] + Escape(ThreeWire, p[..cur])
      invariant cur > 0 ==> 1 + |Escape(ThreeWire, p[..cur - 1])| < len - 1
      invariant forall k :: i <= k < b.Length ==> b[k] == old(b[k])
    {
      i := EscapeNext(b, i, len, p, cur);
      cur := cur + 1;
    }
  }

  /** One turn of the encoder loop: payload byte `cur` goes out after the
      bytes already written. */
  method EscapeNext(b: array<bv8>, i: uint16, len: uint16, p: seq<bv8>, cur: nat) returns (j: uint16)
    requires cur < |p| && i < len - 1 && len <= b.Length
    requires b[..i] == [END] + Escape(ThreeWire, p[..cur])
    modifies b
    ensures j == i + |EscapeByte(ThreeWire, p[cur])| && j <= len
    ensures b[..j] == [END] + Escape(ThreeWire, p[..cur + 1])
    ensures j as int == 1 + |Escape(ThreeWire, p[..cur + 1])|
    ensures 1 + |Escape(ThreeWire, p[..cur])| < len - 1
    ensures forall k :: j <= k < b.Length ==> b[k] == old(b[k])
  {
    ghost var e, x := Escape(ThreeWire, p[..cur]), EscapeByte(ThreeWire, p[cur]);
    j := PutEscaped(b, i, len, p[cur]);
    EscapePrefixStep(ThreeWire, p, cur);
    assert b[..j] == ([END] + e) + x == [END] + (e + x);
  }

  /** The switch inside the encoder loop: write byte `c` at `i`, preceded
      by ESC and replaced by its escape code when it is reserved. */
  method PutEscaped(b: array<bv8>, i: uint16, len: uint16, c: bv8) returns (j: uint16)
    requires i < len - 1 && len <= b.Length
    modifies b
    ensures j == i + |EscapeByte(ThreeWire, c)| && j <= len
    ensures b[..j] == old(b[..i]) + EscapeByte(ThreeWire, c)
    ensures forall k :: j <= k < b.Length ==> b[k] == old(b[k])
  {
    var x := c;
    j := i;
    if x == END {
      b[j] := ESC;
      j := j + 1;
      x := ESC_END;
    } else if x == ESC {
      b[j] := ESC;
      j := j + 1;
      x := ESC_ESC;
    } else if x == HCI_11 {
      b[j] := ESC;
      j := j + 1;
      x := ESC_HCI_11;
    } else if x == HCI_13 {
      b[j] := ESC;
      j := j + 1;
      x := ESC_HCI_13;
    }
    if j < len {
      b[j] := x;
      j := j + 1;
    }
  }

  /** The closing END after a payload that was written whole. */
  method CloseFrame(b: array<bv8>, i: uint16, ghost p: seq<bv8>)
    requires i < b.Length && b[..i] == [END] + Escape(ThreeWire, p)
    modifies b
    ensures b[..i + 1] == Frame(ThreeWire, p)
    ensures forall k :: i < k < b.Length ==> b[k] == old(b[k])
  {
    b[i] := END;
    assert b[..i + 1] == b[..i] + [END];
  }

  /** What the loop's exit tells: the frame fits exactly when every payload
      byte was written and room for the closing END is left. */
  lemma EncodeOutcome(p: seq<bv8>, len: nat, i: nat, cur: nat)
    requires 1 <= i <= len && cur <= |p|
    requires i == 1 + |Escape(ThreeWire, p[..cur])|
    requires cur < |p| ==> len - 1 <= i
    ensures (cur == |p| && i < len) <==> |Frame(ThreeWire, p)| <= len
    ensures cur == |p| ==> p[..cur] == p
  {
    assert p[..|p|] == p;
    if cur < |p| {
      EscapeSplit(ThreeWire, p, cur);
    }
  }

  /** A `slip_t` context. `buf` is the caller's buffer (NULL before init and
      after deinit), `len` its declared size, `idx` the write index. */
  class Slip {
    var kind: Kind
    var buf: array?<bv8>
    var len: uint16
    var idx: uint16
    var hasFrame: bool
    var state: DecoderState

    ghost predicate Valid()
      reads this
    {
      (kind == NoKind <==> buf == null) &&
      (buf == null ==> len == 0 && !hasFrame) &&
      (buf != null ==> 0 < len <= buf.Length) &&
      idx <= len
    }

    /** The decoder meaning of this context. */
    ghost function View(): DecoderView
      reads this, buf
      requires Valid()
    {
      DecoderView(state, if buf == null then [] else buf[..idx], hasFrame)
    }

    /** A zero-initialised `slip_t`, as a static one starts out. */
    constructor ()
      ensures Valid()
      ensures kind == NoKind && buf == null && len == 0 && idx == 0 && !hasFrame && state == Unknown
    {
      kind, buf, len, idx, hasFrame, state := NoKind, null, 0, 0, false, Unknown;
    }

    /** `slip_encoder_init`: zero the buffer, clear the context, adopt the
        buffer. The asserted `buf != NULL` and `len > 0` become requires. */
    method EncoderInit(b: array<bv8>, n: uint16)
      requires 0 < n <= b.Length
      modifies this, b
      ensures Valid()
      ensures kind == Encoder && buf == b && len == n && idx == 0 && !hasFrame
      ensures state == old(state)
      ensures b[..n] == seq(n, _ => 0) && b[n..] == old(b[n..])
    {
      forall i | 0 <= i < n {
        b[i] := 0;
      }
      var _ := EncoderDeinit();
      kind := Encoder;
      buf := b;
      len := n;
    }

    /** `slip_encoder_deinit`: forget the buffer. The decoder state is left
        as it was. */
    method EncoderDeinit() returns (r: int)
      modifies this
      ensures Valid() && r == SLIP_SUCCESS
      ensures kind == NoKind && buf == null && len == 0 && idx == 0 && !hasFrame
      ensures state == old(state)
    {
      buf := null;
      len := 0;
      kind := NoKind;
      idx := 0;
      hasFrame := false;
      return SLIP_SUCCESS;
    }

    /** `slip_encoder_process`: frame `payload[..n]` into the buffer.
        `consumed` (ghost) is the number of payload bytes written before the
        buffer ran out. */
    method EncoderProcess(payload: array?<bv8>, n: uint16) returns (r: int, ghost consumed: nat)
      requires Valid()
      requires payload != null ==> n <= payload.Length && payload != buf
      modifies this, buf
      ensures Valid()
      ensures kind == old(kind) && buf == old(buf) && len == old(len) && state == old(state)
      ensures buf != null ==> forall k :: idx <= k < buf.Length ==> buf[k] == old(buf[k])
      ensures payload == null || n == 0 ==>
        r == -SLIP_ERROR && idx == old(idx) && hasFrame == old(hasFrame)
      ensures payload != null && n > 0 && kind != Encoder ==>
        r == -SLIP_TYPE_ERROR && idx == old(idx) && hasFrame == old(hasFrame)
      ensures (payload == null || n == 0 || kind != Encoder) && buf != null ==> buf[..] == old(buf[..])
      ensures payload != null && n > 0 && kind == Encoder ==>
        Encoded(payload[..n], r, consumed, old(hasFrame))
    {
      if payload == null || n == 0 {
        return -SLIP_ERROR, 0;
      }
      if kind != Encoder {
        return -SLIP_TYPE_ERROR, 0;
      }
      r, consumed := EncodePayload(payload[..n]);
    }

    /** What a call that passed the argument checks leaves behind: success
        exactly when the frame of `p` fits in `len` bytes, and then the
        buffer holds that frame; otherwise NOMEMORY, with the buffer
        holding END and the escaped form of the first `consumed` payload
        bytes, the last of which was started below index `len - 1`. */
    ghost predicate Encoded(p: seq<bv8>, r: int, consumed: nat, hadFrame: bool)
      reads this, buf
      requires Valid() && buf != null
    {
      (r == SLIP_SUCCESS <==> |Frame(ThreeWire, p)| <= len) &&
      (r == SLIP_SUCCESS ==> buf[..idx] == Frame(ThreeWire, p) && hasFrame) &&
      (r != SLIP_SUCCESS ==>
        r == -SLIP_NOMEMORY && hasFrame == hadFrame &&
        consumed <= |p| && len - 1 <= idx &&
        buf[..idx] == [END] + Escape(ThreeWire, p[..consumed]) &&
        (consumed > 0 ==> 1 + |Escape(ThreeWire, p[..consumed - 1])| < len - 1))
    }

    /** The encoding part of `slip_encoder_process`, from `encoder->idx = 0`
        on. */
    method EncodePayload(p: seq<bv8>) returns (r: int, ghost consumed: nat)
      requires Valid() && kind == Encoder && 0 < |p| < 0x1_0000
      modifies this, buf
      ensures Valid()
      ensures kind == old(kind) && buf == old(buf) && len == old(len) && state == old(state)
      ensures forall k :: idx <= k < buf.Length ==> buf[k] == old(buf[k])
      ensures Encoded(p, r, consumed, old(hasFrame))
    {
      var i, cur := EscapeInto(buf, len, p);
      idx := i;
      EncodeOutcome(p, len, i, cur);
      if cur == |p| && idx < len {
        CloseFrame(buf, idx, p);
        idx := idx + 1;
        hasFrame := true;
        return SLIP_SUCCESS, |p|;
      }
      return -SLIP_NOMEMORY, cur;
    }

    /** `slip_decoder_init`: zero the buffer, reset the decoder, adopt the
        buffer. */
    method DecoderInit(b: array<bv8>, n: uint16)
      requires 0 < n <= b.Length
      modifies this, b
      ensures Valid()
      ensures kind == Decoder && buf == b && len == n
      ensures View() == Fresh
      ensures b[..n] == seq(n, _ => 0) && b[n..] == old(b[n..])
    {
      forall i | 0 <= i < n {
        b[i] := 0;
      }
      var _ := DecoderDeinit();
      kind := Decoder;
      buf := b;
      len := n;
    }

    /** `slip_decoder_deinit`: forget the buffer and reset the state. */
    method DecoderDeinit() returns (r: int)
      modifies this
      ensures Valid() && r == SLIP_SUCCESS
      ensures kind == NoKind && buf == null && len == 0 && idx == 0 && !hasFrame
      ensures state == Unknown
    {
      kind := NoKind;
      buf := null;
      len := 0;
      idx := 0;
      hasFrame := false;
      state := Unknown;
      return SLIP_SUCCESS;
    }

    /** `slip_decoder_process_escape`: the byte after an ESC. A byte of the
        table appends the byte it stands for; any other clears the index. */
    method DecoderProcessEscape(c: bv8) returns (ok: bool)
      requires Valid() && buf != null && idx < len
      modifies this`idx, buf
      ensures Valid()
      ensures ok <==> UnescapeByte(ThreeWire, c).Some?
      ensures ok ==> buf[..idx] == old(buf[..idx]) + [UnescapeByte(ThreeWire, c).value]
      ensures !ok ==> idx == 0 && buf[..] == old(buf[..])
      ensures forall k :: 0 <= k < buf.Length && k != old(idx) ==> buf[k] == old(buf[k])
    {
      if c == ESC_END {
        buf[idx] := END;
      } else if c == ESC_ESC {
        buf[idx] := ESC;
      } else if c == ESC_HCI_11 {
        buf[idx] := HCI_11;
      } else if c == ESC_HCI_13 {
        buf[idx] := HCI_13;
      } else {
        // Clear what was accumulated.
        idx := 0;
        return false;
      }
      idx := idx + 1;
      return true;
    }

    /** `slip_decoder_process_byte`: feed one byte to the decoder. */
    method DecoderProcessByte(c: bv8) returns (r: int)
      requires Valid()
      modifies this, buf
      ensures Valid()
      ensures kind == old(kind) && buf == old(buf) && len == old(len)
      ensures View() == Step(old(View()), len, c).view
      ensures r == Step(old(View()), len, c).status
      ensures buf != null ==> forall k :: 0 <= k < buf.Length && k != old(idx) ==> buf[k] == old(buf[k])
      ensures buf != null && idx != old(idx) + 1 ==> buf[..] == old(buf[..])
    {
      if idx >= len {
        return -SLIP_NOMEMORY;
      }
      // FRAME_START falls through into DECODING on any byte but END.
      var decode := state == Decoding;
      if state == Unknown {
        if c == END {
          state := FrameStart;
        }
      } else if state == FrameStart {
        if c != END {
          state := Decoding;
          decode := true;
        }
      } else if state == Escaping {
        var ok := DecoderProcessEscape(c);
        if !ok {
          state := Unknown;
          return -SLIP_ERROR;
        }
        state := Decoding;
      }
      if decode {
        if c == END {
          // A frame is ready.
          hasFrame := true;
          state := Unknown;
        } else if c == ESC {
          state := Escaping;
        } else {
          buf[idx] := c;
          idx := idx + 1;
        }
      }
      return SLIP_SUCCESS;
    }
  }

  /** `slip_encoder_has_frame` and `slip_decoder_has_frame` (the same code):
      false for a NULL context, the frame flag otherwise. */
  function HasFrame(s: Slip?): (r: bool)
    reads s
    ensures r ==> s != null
    ensures s != null && s.Valid() ==> (r <==> s.View().hasFrame)
  {
    s != null && s.hasFrame
  }

  /** `slip_encoder_get_frame`, and `slip_decoder_get_frame`, which is the
      same code: the buffer when a frame is ready, NULL otherwise. */
  function GetFrame(s: Slip?): (r: array?<bv8>)
    reads s
    ensures r == null <==> !HasFrame(s) || s.buf == null
    ensures r != null ==> r == s.buf
    ensures s != null && s.Valid() ==> (r == null <==> !s.hasFrame)
    ensures s != null && s.Valid() && r != null ==> GetFrameSize(s) as int <= r.Length
  {
    if !HasFrame(s) then null else s.buf
  }

  /** `slip_encoder_get_frame_size`, and `slip_decoder_get_frame_size`,
      which is the same code: the write index when a frame is ready, 0
      otherwise. */
  function GetFrameSize(s: Slip?): (r: uint16)
    reads s
    ensures !HasFrame(s) ==> r == 0
    ensures HasFrame(s) ==> r == s.idx
    ensures s != null && s.Valid() ==> r <= s.len
  {
    if !HasFrame(s) then 0 else s.idx
  }

  /** Together the two accessors designate exactly the accumulated frame, and
      they report no frame exactly when the flag is clear. */
  lemma AccessorsGiveFrame(s: Slip)
    requires s.Valid()
    ensures GetFrame(s) == null <==> !s.hasFrame
    ensures GetFrame(s) != null ==>
      GetFrameSize(s) as int <= GetFrame(s).Length &&
      GetFrame(s)[..GetFrameSize(s)] == s.View().frame
    ensures !s.hasFrame ==> GetFrameSize(s) == 0
    ensures HasFrame(s) <==> GetFrame(s) != null
    ensures !HasFrame(s) ==> GetFrameSize(s) == 0
  {
  }
}
