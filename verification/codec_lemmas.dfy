/** What feeding whole byte streams to the library decoder does, stated over
    `Run`, the byte-at-a-time reference that `Slip.DecoderProcessByte` is
    proved to follow. */
module CodecLemmas {
  import opened Wire
  import opened Codec

  /** Feeding `a` and then `b` is feeding `a + b`. */
  lemma {:induction false} RunAppend(d: DecoderView, cap: nat, a: seq<bv8>, b: seq<bv8>)
    decreases |a|
    ensures var ra := Run(d, cap, a); var rb := Run(ra.view, cap, b);
      Run(d, cap, a + b) == Ran(rb.view, ra.ok && rb.ok)
  {
    if a == [] {
      assert a + b == b;
    } else {
      assert (a + b)[0] == a[0];
      assert (a + b)[1..] == a[1..] + b;
      RunAppend(Step(d, cap, a[0]).view, cap, a[1..], b);
    }
  }

  /** The table of the escape byte: exactly 0xDC..0xDF follow ESC, which is
      why each of 0x05, 0xDB, 0xE0 and 0xEF after ESC is an error. */
  lemma UnescapeByteRange(x: bv8)
    ensures UnescapeByte(ThreeWire, x).Some? <==> ESC_END <= x <= ESC_HCI_13
  {
  }

  /** Bytes before the first END are line noise: they change nothing. */
  lemma {:induction false} NoiseIgnored(d: DecoderView, cap: nat, s: seq<bv8>)
    requires d.state == Unknown && |d.frame| < cap && END !in s
    decreases |s|
    ensures Run(d, cap, s) == Ran(d, true)
  {
    if s != [] {
      assert Step(d, cap, s[0]) == Stepped(d, SLIP_SUCCESS);
      NoiseIgnored(d, cap, s[1..]);
    }
  }

  /** No frame becomes ready while no END arrives. */
  lemma {:induction false} NoEndNoFrame(d: DecoderView, cap: nat, s: seq<bv8>)
    requires !d.hasFrame && END !in s
    decreases |s|
    ensures !Run(d, cap, s).view.hasFrame
  {
    if s != [] {
      NoEndNoFrame(Step(d, cap, s[0]).view, cap, s[1..]);
    }
  }

  /** The FRAME_START case falls through into DECODING on any byte but
      END. */
  lemma FrameStartFallsThrough(d: DecoderView, cap: nat, s: seq<bv8>)
    requires d.state == FrameStart && |d.frame| < cap && s != [] && s[0] != END
    ensures Run(d, cap, s) == Run(d.(state := Decoding), cap, s)
  {
    assert Step(d, cap, s[0]) == Step(d.(state := Decoding), cap, s[0]);
  }

  /** A data byte in the DECODING state is appended. */
  lemma RunData(d: DecoderView, cap: nat, t: seq<bv8>)
    requires d.state == Decoding && |d.frame| < cap
    requires t != [] && t[0] != END && t[0] != ESC
    ensures Run(d, cap, t) == Run(d.(frame := d.frame + [t[0]]), cap, t[1..])
  {
    assert Step(d, cap, t[0]) == Stepped(d.(frame := d.frame + [t[0]]), SLIP_SUCCESS);
  }

  /** An escape pair in the DECODING state appends the byte it stands for. */
  lemma RunEscapePair(d: DecoderView, cap: nat, t: seq<bv8>)
    requires d.state == Decoding && |d.frame| < cap
    requires |t| >= 2 && t[0] == ESC && UnescapeByte(ThreeWire, t[1]).Some?
    ensures Run(d, cap, t)
         == Run(d.(frame := d.frame + [UnescapeByte(ThreeWire, t[1]).value]), cap, t[2..])
  {
    var d1 := d.(state := Escaping);
    var d2 := d.(frame := d.frame + [UnescapeByte(ThreeWire, t[1]).value]);
    assert Step(d, cap, t[0]) == Stepped(d1, SLIP_SUCCESS);
    assert Step(d1, cap, t[1]) == Stepped(d2, SLIP_SUCCESS);
    assert t[1..][0] == t[1] && t[1..][1..] == t[2..];
    var r := Run(d2, cap, t[2..]);
    assert Run(d1, cap, t[1..]) == Ran(r.view, r.ok);
  }

  /** A frame body that unescapes to `q` appends `q` to what was accumulated,
      provided the buffer has room for it. */
  lemma {:induction false} DecodeBody(d: DecoderView, cap: nat, t: seq<bv8>)
    requires d.state == Decoding && Unescape(ThreeWire, t).Some?
    requires |d.frame| + |Unescape(ThreeWire, t).value| <= cap
    decreases |t|, 1
    ensures Run(d, cap, t) == Ran(d.(frame := d.frame + Unescape(ThreeWire, t).value), true)
  {
    if t != [] {
      if t[0] == ESC {
        DecodeBodyEscape(d, cap, t);
      } else {
        DecodeBodyData(d, cap, t);
      }
    }
  }

  /** `DecodeBody` for a body that starts with an escape pair. */
  lemma {:induction false} DecodeBodyEscape(d: DecoderView, cap: nat, t: seq<bv8>)
    requires d.state == Decoding && Unescape(ThreeWire, t).Some? && t != [] && t[0] == ESC
    requires |d.frame| + |Unescape(ThreeWire, t).value| <= cap
    decreases |t|, 0
    ensures Run(d, cap, t) == Ran(d.(frame := d.frame + Unescape(ThreeWire, t).value), true)
  {
    var b := UnescapeByte(ThreeWire, t[1]).value;
    var q' := Unescape(ThreeWire, t[2..]).value;
    assert Unescape(ThreeWire, t) == Some([b] + q');
    var d2 := d.(frame := d.frame + [b]);
    RunEscapePair(d, cap, t);
    DecodeBody(d2, cap, t[2..]);
    Assoc(d.frame, [b], q');
  }

  /** `DecodeBody` for a body that starts with a data byte. */
  lemma {:induction false} DecodeBodyData(d: DecoderView, cap: nat, t: seq<bv8>)
    requires d.state == Decoding && Unescape(ThreeWire, t).Some? && t != [] && t[0] != ESC
    requires |d.frame| + |Unescape(ThreeWire, t).value| <= cap
    decreases |t|, 0
    ensures Run(d, cap, t) == Ran(d.(frame := d.frame + Unescape(ThreeWire, t).value), true)
  {
    var q' := Unescape(ThreeWire, t[1..]).value;
    assert t[0] != END && Unescape(ThreeWire, t) == Some([t[0]] + q');
    var d1 := d.(frame := d.frame + [t[0]]);
    RunData(d, cap, t);
    DecodeBody(d1, cap, t[1..]);
    Assoc(d.frame, [t[0]], q');
  }

  /** A frame arriving while the decoder waits for a frame start appends
      its payload to the buffer and marks a frame ready. The buffer must
      have room for one byte more than the payload: the capacity check comes
      before every byte, the closing END included. */
  lemma DecodeFrame(d: DecoderView, cap: nat, p: seq<bv8>)
    requires d.state == Unknown && p != [] && |d.frame| + |p| < cap
    ensures Run(d, cap, Frame(ThreeWire, p)) == Ran(DecoderView(Unknown, d.frame + p, true), true)
  {
    var e := Escape(ThreeWire, p);
    var f := Frame(ThreeWire, p);
    assert f == [END] + (e + [END]);
    assert f[0] == END && f[1..] == e + [END];
    var d1 := d.(state := FrameStart);
    var d2 := d.(state := Decoding);
    assert Step(d, cap, END) == Stepped(d1, SLIP_SUCCESS);
    EscapeNoEnd(ThreeWire, p);
    assert e[0] != END;
    FrameStartFallsThrough(d1, cap, e + [END]);
    RunAppend(d2, cap, e, [END]);
    UnescapeEscape(ThreeWire, p);
    DecodeBody(d2, cap, e);
    var d3 := d2.(frame := d.frame + p);
    assert Step(d3, cap, END) == Stepped(DecoderView(Unknown, d.frame + p, true), SLIP_SUCCESS);
  }

  /** Round trip: a fresh decoder given an encoded frame ends up holding the
      payload, with the frame flag set and every byte accepted. */
  lemma RoundTrip(cap: nat, p: seq<bv8>)
    requires 0 < |p| < cap
    ensures Run(Fresh, cap, Frame(ThreeWire, p)) == Ran(DecoderView(Unknown, p, true), true)
  {
    DecodeFrame(Fresh, cap, p);
  }

  /** The frame flag is raised by the closing END and no earlier. */
  lemma FrameNotReadyEarly(cap: nat, p: seq<bv8>, k: nat)
    requires 0 < cap && k < |Frame(ThreeWire, p)|
    ensures !Run(Fresh, cap, Frame(ThreeWire, p)[..k]).view.hasFrame
  {
    var f := Frame(ThreeWire, p);
    if k > 0 {
      assert f[..k] == [END] + f[1..k];
      assert f[1..k] == f[1..|f| - 1][..k - 1];
      NoEndNoFrame(Fresh.(state := FrameStart), cap, f[1..k]);
    }
  }

  /** Line noise before a frame is skipped. */
  lemma NoiseThenFrame(cap: nat, noise: seq<bv8>, p: seq<bv8>)
    requires 0 < |p| < cap && END !in noise
    ensures Run(Fresh, cap, noise + Frame(ThreeWire, p)) == Ran(DecoderView(Unknown, p, true), true)
  {
    NoiseIgnored(Fresh, cap, noise);
    RunAppend(Fresh, cap, noise, Frame(ThreeWire, p));
    RoundTrip(cap, p);
  }

  /** The write index is not reset when a new frame starts: a second frame
      is appended to the first in the buffer. */
  lemma FramesAccumulate(cap: nat, p: seq<bv8>, q: seq<bv8>)
    requires p != [] && q != [] && |p| + |q| < cap
    ensures Run(Fresh, cap, Frame(ThreeWire, p) + Frame(ThreeWire, q))
         == Ran(DecoderView(Unknown, p + q, true), true)
  {
    RunAppend(Fresh, cap, Frame(ThreeWire, p), Frame(ThreeWire, q));
    RoundTrip(cap, p);
    DecodeFrame(DecoderView(Unknown, p, true), cap, q);
  }

  /** A byte after ESC that is not in the table clears the buffer and sends
      the decoder back to waiting for a frame start; the next frame then
      decodes normally, although the call that saw the bad byte failed. */
  lemma {:induction false} RecoverAfterBadEscape(d: DecoderView, cap: nat, x: bv8, p: seq<bv8>)
    requires d.state == Decoding && |d.frame| < cap
    requires UnescapeByte(ThreeWire, x).None?
    requires 0 < |p| < cap
    ensures Run(d, cap, [ESC, x]) == Ran(d.(frame := [], state := Unknown), false)
    ensures Run(d, cap, [ESC, x] + Frame(ThreeWire, p)) == Ran(DecoderView(Unknown, p, true), false)
  {
    var d1 := d.(state := Escaping);
    var d2 := d.(frame := [], state := Unknown);
    assert Step(d, cap, ESC) == Stepped(d1, SLIP_SUCCESS);
    assert Step(d1, cap, x) == Stepped(d2, -SLIP_ERROR);
    assert [ESC, x][0] == ESC && [ESC, x][1..] == [x] && [x][1..] == [];
    assert Run(d1, cap, [x]) == Ran(d2, false);
    assert Run(d, cap, [ESC, x]) == Ran(d2, false);
    RunAppend(d, cap, [ESC, x], Frame(ThreeWire, p));
    DecodeFrame(d2, cap, p);
    assert d2.frame + p == p;
  }

  /** The decoder test with an unsupported escape: END and ESC are accepted,
      the third byte is refused, and no frame is reported. */
  lemma BadEscapeVector(cap: nat, x: bv8)
    requires 0 < cap && (x == 0x05 || x == ESC || x == 0xE0 || x == 0xEF)
    ensures Step(Fresh, cap, END).status == SLIP_SUCCESS
    ensures Step(Step(Fresh, cap, END).view, cap, ESC).status == SLIP_SUCCESS
    ensures Step(Step(Step(Fresh, cap, END).view, cap, ESC).view, cap, x) == Stepped(Fresh, -SLIP_ERROR)
  {
    UnescapeByteRange(x);
  }

  /** The decoder test with escapes of END and ESC, at the test buffer
      size of 512 bytes. */
  lemma DecoderVectorEscapes()
    ensures Run(Fresh, 512, [0xC0, 0xDB, 0xDC, 0xDB, 0xDD, 0xFF, 0x00, 0xC0])
         == Ran(DecoderView(Unknown, [0xC0, 0xDB, 0xFF, 0x00], true), true)
  {
    EncoderVectorEscapes([0xC0, 0xDB, 0xFF, 0x00]);
    RoundTrip(512, [0xC0, 0xDB, 0xFF, 0x00]);
  }

  /** The decoder test without escapes. */
  lemma DecoderVectorPlain()
    ensures Run(Fresh, 512, [0xC0, 0x00, 0xFF, 0xC0])
         == Ran(DecoderView(Unknown, [0x00, 0xFF], true), true)
  {
    EncoderVectorPlain([0x00, 0xFF]);
    RoundTrip(512, [0x00, 0xFF]);
  }

  /** The decoder test whose stream does not start with END. */
  lemma DecoderVectorNoise(s: seq<bv8>)
    requires s == [0x00, 0x00, 0x00, 0xC0, 0x00, 0xFF, 0xC0]
    ensures Run(Fresh, 512, s) == Ran(DecoderView(Unknown, [0x00, 0xFF], true), true)
  {
    var noise, p := s[..3], s[4..6];
    EncoderVectorPlain(p);
    assert s == noise + Frame(ThreeWire, p);
    assert noise[0] != END && noise[1] != END && noise[2] != END;
    NoiseThenFrame(512, noise, p);
  }

  /** The decoder test with the three-wire escapes. */
  lemma DecoderVectorThreeWire()
    ensures Run(Fresh, 512, [0xC0, 0xDB, 0xDE, 0xDB, 0xDF, 0xC0])
         == Ran(DecoderView(Unknown, [0x11, 0x13], true), true)
  {
    EncoderVectorThreeWire([0x11, 0x13]);
    RoundTrip(512, [0x11, 0x13]);
  }

  /** The encoder test with END and ESC in the payload. */
  lemma EncoderVectorEscapes(p: seq<bv8>)
    requires p == [0xC0, 0xDB, 0xFF, 0x00]
    ensures Frame(ThreeWire, p) == [0xC0, 0xDB, 0xDC, 0xDB, 0xDD, 0xFF, 0x00, 0xC0]
  {
    var t := p[2..];
    assert !Reserved(ThreeWire, t[0]) && !Reserved(ThreeWire, t[1]);
    assert p == [END, ESC] + t;
    EscapeEndEsc(t);
  }

  /** END then ESC, ahead of bytes that need no escaping, escape to both two-byte codes. */
  lemma EscapeEndEsc(t: seq<bv8>)
    requires forall i :: 0 <= i < |t| ==> !Reserved(ThreeWire, t[i])
    ensures Escape(ThreeWire, [END, ESC] + t) == [ESC, ESC_END, ESC, ESC_ESC] + t
  {
    var tail: seq<bv8> := [ESC, ESC_ESC] + t;
    assert Escape(ThreeWire, [ESC] + t) == tail by {
      EscapePlain(ThreeWire, t);
      EscapeCons(ThreeWire, ESC, t);
      assert EscapeByte(ThreeWire, ESC) == [ESC, ESC_ESC];
    }
    assert Escape(ThreeWire, [END] + ([ESC] + t)) == [ESC, ESC_END] + tail by {
      EscapeCons(ThreeWire, END, [ESC] + t);
      assert EscapeByte(ThreeWire, END) == [ESC, ESC_END];
    }
    SplitPair(END, ESC, t);
    JoinPairs(ESC, ESC_END, ESC, ESC_ESC, t);
  }

  /** A leading pair of bytes is one byte ahead of the other. */
  lemma SplitPair(a: bv8, b: bv8, t: seq<bv8>)
    ensures [a, b] + t == [a] + ([b] + t)
  {
  }

  /** Two leading pairs of bytes make one leading run of four. */
  lemma JoinPairs(a: bv8, b: bv8, c: bv8, d: bv8, t: seq<bv8>)
    ensures [a, b] + ([c, d] + t) == [a, b, c, d] + t
  {
  }

  /** The encoder test without reserved bytes; its frame does not fit in the
      two-byte buffer of the small-buffer test. */
  lemma EncoderVectorPlain(p: seq<bv8>)
    requires p == [0x00, 0xFF]
    ensures Frame(ThreeWire, p) == [0xC0, 0x00, 0xFF, 0xC0]
    ensures |Frame(ThreeWire, p)| > 2
  {
    assert !Reserved(ThreeWire, p[0]) && !Reserved(ThreeWire, p[1]);
    EscapePlain(ThreeWire, p);
  }

  /** The encoder test with the three-wire bytes 0x11 and 0x13. */
  lemma EncoderVectorThreeWire(p: seq<bv8>)
    requires p == [0x11, 0x13]
    ensures Frame(ThreeWire, p) == [0xC0, 0xDB, 0xDE, 0xDB, 0xDF, 0xC0]
  {
    assert p == [p[0]] + [p[1]];
    EscapeCons(ThreeWire, p[0], [p[1]]);
    EscapeSingle(ThreeWire, p[1]);
    assert Escape(ThreeWire, p) == [ESC, ESC_HCI_11] + [ESC, ESC_HCI_13];
  }
}
