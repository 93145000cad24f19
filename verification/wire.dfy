/** The SLIP wire format shared by both revisions of the codec.

    RFC 1055 reserves END (0xC0) as the frame delimiter and ESC (0xDB) as the
    escape prefix; inside a frame END travels as ESC ESC_END and ESC as
    ESC ESC_ESC. The newer revision also follows the SLIP layer of the
    Bluetooth HCI Three-wire UART transport (Bluetooth Core Specification,
    Vol 4 Part D, section 3), which further escapes 0x11 as ESC 0xDE and 0x13
    as ESC 0xDF. `Variant` selects the table. */
module Wire {

  /** C's uint16_t: the width of every length and index in both revisions. */
  type uint16 = x: int | 0 <= x < 0x1_0000

  datatype Option<T> = None | Some(value: T)

  const END: bv8 := 0xC0
  const ESC: bv8 := 0xDB
  const ESC_END: bv8 := 0xDC
  const ESC_ESC: bv8 := 0xDD
  const HCI_11: bv8 := 0x11
  const HCI_13: bv8 := 0x13
  const ESC_HCI_11: bv8 := 0xDE
  const ESC_HCI_13: bv8 := 0xDF

  /** Rfc1055 is the escape table of the legacy root revision, ThreeWire that
      of the library revision. */
  datatype Variant = Rfc1055 | ThreeWire

  /** The bytes that may not travel verbatim inside a frame. */
  predicate Reserved(v: Variant, c: bv8) {
    c == END || c == ESC || (v == ThreeWire && (c == HCI_11 || c == HCI_13))
  }

  /** The on-wire form of one payload byte. */
  function EscapeByte(v: Variant, c: bv8): (r: seq<bv8>)
    ensures |r| == if Reserved(v, c) then 2 else 1
    ensures END !in r
    ensures Reserved(v, c) <==> r[0] == ESC
    ensures !Reserved(v, c) ==> r == [c]
  {
    if c == END then [ESC, ESC_END]
    else if c == ESC then [ESC, ESC_ESC]
    else if v == ThreeWire && c == HCI_11 then [ESC, ESC_HCI_11]
    else if v == ThreeWire && c == HCI_13 then [ESC, ESC_HCI_13]
    else [c]
  }

  /** The byte an ESC pair stands for, or None when `c` may not follow ESC. */
  function UnescapeByte(v: Variant, c: bv8): (r: Option<bv8>)
    ensures r.Some? ==> Reserved(v, r.value) && EscapeByte(v, r.value) == [ESC, c]
    ensures r.None? ==> forall b: bv8 :: Reserved(v, b) ==> EscapeByte(v, b)[1] != c
  {
    if c == ESC_END then Some(END)
    else if c == ESC_ESC then Some(ESC)
    else if v == ThreeWire && c == ESC_HCI_11 then Some(HCI_11)
    else if v == ThreeWire && c == ESC_HCI_13 then Some(HCI_13)
    else None
  }

  /** The number of reserved bytes in `p`, each of which costs one extra
      byte on the wire. */
  function ReservedCount(v: Variant, p: seq<bv8>): (n: nat)
    ensures n <= |p|
  {
    if p == [] then 0
    else ReservedCount(v, p[..|p| - 1]) + (if Reserved(v, p[|p| - 1]) then 1 else 0)
  }

  /** The escaped body of a frame carrying `p`, built byte by byte from the
      front as both encoders do. */
  function Escape(v: Variant, p: seq<bv8>): (r: seq<bv8>)
    ensures |r| == |p| + ReservedCount(v, p)
  {
    if p == [] then [] else Escape(v, p[..|p| - 1]) + EscapeByte(v, p[|p| - 1])
  }

  /** A whole frame: END, the escaped payload, END. */
  function Frame(v: Variant, p: seq<bv8>): (f: seq<bv8>)
    ensures |f| == 2 + |p| + ReservedCount(v, p)
    ensures f[0] == END && f[|f| - 1] == END
    ensures END !in f[1..|f| - 1]
  {
    EscapeNoEnd(v, p);
    assert ([END] + Escape(v, p) + [END])[1..|p| + ReservedCount(v, p) + 1] == Escape(v, p);
    [END] + Escape(v, p) + [END]
  }

  /** The payload carried by a frame body, read from the front as both
      decoders read it: None for a raw END, an ESC at the very end, or an
      ESC followed by a byte that is not in the table. */
  function Unescape(v: Variant, s: seq<bv8>): (r: Option<seq<bv8>>)
    ensures r.Some? ==> |r.value| <= |s|
  {
    if s == [] then Some([])
    else if s[0] == END then None
    else if s[0] == ESC then
      if |s| < 2 then None
      else match UnescapeByte(v, s[1])
        case None => None
        case Some(b) =>
          match Unescape(v, s[2..])
          case None => None
          case Some(t) => Some([b] + t)
    else
      match Unescape(v, s[1..])
      case None => None
      case Some(t) => Some([s[0]] + t)
  }

  /** No escaped body carries a raw END, so END delimits frames
      unambiguously. */
  lemma {:induction false} EscapeNoEnd(v: Variant, p: seq<bv8>)
    ensures END !in Escape(v, p)
  {
    if p != [] {
      EscapeNoEnd(v, p[..|p| - 1]);
    }
  }

  /** A body that unescapes carries no raw END. */
  lemma {:induction false} UnescapeNoEnd(v: Variant, s: seq<bv8>)
    requires Unescape(v, s).Some?
    ensures END !in s
  {
    if s != [] {
      if s[0] == ESC {
        UnescapeNoEnd(v, s[2..]);
        assert s == [s[0], s[1]] + s[2..];
      } else {
        UnescapeNoEnd(v, s[1..]);
        assert s == [s[0]] + s[1..];
      }
    }
  }

  /** Concatenation is associative. */
  lemma Assoc(a: seq<bv8>, b: seq<bv8>, c: seq<bv8>)
    ensures (a + b) + c == a + (b + c)
  {
  }

  /** Escaping one more byte at the back. */
  lemma EscapeSnoc(v: Variant, s: seq<bv8>, c: bv8)
    ensures Escape(v, s + [c]) == Escape(v, s) + EscapeByte(v, c)
  {
    assert (s + [c])[..|s|] == s;
  }

  /** Escaping distributes over concatenation. */
  lemma {:induction false} EscapeAppend(v: Variant, p: seq<bv8>, q: seq<bv8>)
    ensures Escape(v, p + q) == Escape(v, p) + Escape(v, q)
  {
    if q == [] {
      assert p + q == p;
    } else {
      var q', c := q[..|q| - 1], q[|q| - 1];
      assert q == q' + [c];
      assert p + q == (p + q') + [c];
      var e, e', b := Escape(v, p), Escape(v, q'), EscapeByte(v, c);
      calc {
        Escape(v, p + q);
        Escape(v, (p + q') + [c]);
        { EscapeSnoc(v, p + q', c); }
        Escape(v, p + q') + b;
        { EscapeAppend(v, p, q'); }
        (e + e') + b;
        { assert (e + e') + b == e + (e' + b); }
        e + (e' + b);
        { EscapeSnoc(v, q', c); }
        e + Escape(v, q);
      }
    }
  }

  /** The escaped form of `p` split at payload byte `i`. */
  lemma EscapeSplit(v: Variant, p: seq<bv8>, i: nat)
    requires i < |p|
    ensures Escape(v, p) == Escape(v, p[..i]) + EscapeByte(v, p[i]) + Escape(v, p[i + 1..])
  {
    assert p == p[..i + 1] + p[i + 1..];
    EscapeAppend(v, p[..i + 1], p[i + 1..]);
    assert p[..i + 1][..i] == p[..i];
  }

  /** Escaping one more byte of `p` extends the escaped prefix. */
  lemma EscapePrefixStep(v: Variant, p: seq<bv8>, i: nat)
    requires i < |p|
    ensures Escape(v, p[..i + 1]) == Escape(v, p[..i]) + EscapeByte(v, p[i])
  {
    assert p[..i + 1][..i] == p[..i];
  }

  /** Escaping the first byte of `p` and then the rest. */
  lemma EscapeCons(v: Variant, c: bv8, p: seq<bv8>)
    ensures Escape(v, [c] + p) == EscapeByte(v, c) + Escape(v, p)
  {
    EscapeAppend(v, [c], p);
    EscapeSingle(v, c);
  }

  /** A one-byte payload escapes to that byte's escape. */
  lemma EscapeSingle(v: Variant, c: bv8)
    ensures Escape(v, [c]) == EscapeByte(v, c)
  {
    assert [c][..0] == [];
  }

  /** A payload with no reserved byte travels verbatim. */
  lemma {:induction false} EscapePlain(v: Variant, p: seq<bv8>)
    requires forall i :: 0 <= i < |p| ==> !Reserved(v, p[i])
    ensures Escape(v, p) == p
  {
    if p != [] {
      EscapePlain(v, p[..|p| - 1]);
    }
  }

  /** Round trip: unescaping an escaped payload gives the payload back. */
  lemma {:induction false} UnescapeEscape(v: Variant, p: seq<bv8>)
    ensures Unescape(v, Escape(v, p)) == Some(p)
  {
    if p != [] {
      var c, p' := p[0], p[1..];
      var e, rest := EscapeByte(v, c), Escape(v, p');
      assert p == [c] + p';
      EscapeCons(v, c, p');
      UnescapeEscape(v, p');
      var s := e + rest;
      assert Escape(v, p) == s;
      if Reserved(v, c) {
        UnescapeByteOfEscape(v, c);
        assert s[0] == ESC && s[1] == e[1] && s[2..] == rest;
      } else {
        assert s[0] == c && s[1..] == rest;
      }
      assert Unescape(v, s) == Some([c] + p');
    }
  }

  /** The escape code of a reserved byte reads back as that byte. */
  lemma UnescapeByteOfEscape(v: Variant, c: bv8)
    requires Reserved(v, c)
    ensures UnescapeByte(v, EscapeByte(v, c)[1]) == Some(c)
  {
  }

  /** The converse: every body that unescapes is the canonical escaping of
      what it unescapes to, provided (for the three-wire table) that it does
      not carry 0x11 or 0x13 raw, which its decoder tolerates. */
  lemma {:induction false} EscapeUnescape(v: Variant, s: seq<bv8>)
    requires v == ThreeWire ==> HCI_11 !in s && HCI_13 !in s
    requires Unescape(v, s).Some?
    ensures Escape(v, Unescape(v, s).value) == s
  {
    if s != [] {
      var t := Unescape(v, s).value;
      if s[0] == ESC {
        var b := UnescapeByte(v, s[1]).value;
        var t' := Unescape(v, s[2..]).value;
        assert t == [b] + t';
        assert s == [s[0], s[1]] + s[2..];
        EscapeUnescape(v, s[2..]);
        EscapeCons(v, b, t');
      } else {
        var t' := Unescape(v, s[1..]).value;
        assert t == [s[0]] + t';
        assert s == [s[0]] + s[1..];
        EscapeUnescape(v, s[1..]);
        EscapeCons(v, s[0], t');
        assert !Reserved(v, s[0]);
      }
    }
  }

  /** Escaping is injective: distinct payloads give distinct frames. */
  lemma EscapeInjective(v: Variant, p: seq<bv8>, q: seq<bv8>)
    requires Escape(v, p) == Escape(v, q)
    ensures p == q
  {
    UnescapeEscape(v, p);
    UnescapeEscape(v, q);
  }
}
