/**
 * KISS framing (the KISS TNC protocol of Chepponis and Karn, 1987): FEND,
 * the command byte, the frame with every FEND and FESC byte replaced by a
 * two-byte escape, and a closing FEND.
 */
module Kiss {
  import opened Bytes

  /** Frame end. */
  const FEND: bv8 := 0xC0
  /** Frame escape. */
  const FESC: bv8 := 0xDB
  /** Transposed frame end. */
  const TFEND: bv8 := 0xDC
  /** Transposed frame escape. */
  const TFESC: bv8 := 0xDD
  /** Data frame on port 0. */
  const CMD_DATA: bv8 := 0x00

  /** The one or two bytes that stand for `b` inside a KISS frame. */
  function EscapeByte(b: bv8): (r: seq<bv8>)
    ensures FEND !in r
    ensures Unescape(r) == Some([b])
  {
    var r: seq<bv8> := if b == FEND then [FESC, TFEND] else if b == FESC then [FESC, TFESC] else [b];
    var rest: seq<bv8> := [];
    assert Unescape(rest) == Some(rest);
    assert r[|r|..] == rest;
    assert [b] + rest == [b];
    r
  }

  /** The frame body with every FEND and FESC escaped. */
  function Escape(s: seq<bv8>): (r: seq<bv8>)
    ensures |s| <= |r| <= 2 * |s|
  {
    if s == [] then [] else EscapeByte(s[0]) + Escape(s[1..])
  }

  /** Escaping distributes over concatenation. */
  lemma {:induction false} EscapeAppend(a: seq<bv8>, b: seq<bv8>)
    ensures Escape(a + b) == Escape(a) + Escape(b)
  {
    if a == [] {
      assert a + b == b;
    } else {
      assert (a + b)[1..] == a[1..] + b;
      EscapeAppend(a[1..], b);
    }
  }

  /** The number of bytes of `s` that need an escape. */
  function SpecialCount(s: seq<bv8>): (n: nat)
    ensures n <= |s|
  {
    if s == [] then 0
    else (if s[0] == FEND || s[0] == FESC then 1 else 0) + SpecialCount(s[1..])
  }

  /** Each FEND or FESC costs one extra byte, every other byte none. */
  lemma {:induction false} EscapeLength(s: seq<bv8>)
    ensures |Escape(s)| == |s| + SpecialCount(s)
  {
    if s != [] {
      EscapeLength(s[1..]);
    }
  }

  /** A byte sequence a KISS receiver can unescape: no FEND, and every FESC is followed by TFEND or TFESC. */
  predicate WellEscaped(t: seq<bv8>) {
    && (forall i :: 0 <= i < |t| ==> t[i] != FEND)
    && (forall i :: 0 <= i < |t| && t[i] == FESC ==> i + 1 < |t| && (t[i + 1] == TFEND || t[i + 1] == TFESC))
  }

  /** Every escaped body is well escaped. */
  lemma {:induction false} EscapeWellEscaped(s: seq<bv8>)
    ensures WellEscaped(Escape(s))
  {
    if s != [] {
      EscapeWellEscaped(s[1..]);
      var head, tail := EscapeByte(s[0]), Escape(s[1..]);
      assert Escape(s) == head + tail;
      forall i | 0 <= i < |head + tail| && (head + tail)[i] == FESC
        ensures i + 1 < |head + tail|
        ensures (head + tail)[i + 1] == TFEND || (head + tail)[i + 1] == TFESC
      {
        if i >= |head| {
          assert (head + tail)[i] == tail[i - |head|];
        }
      }
    }
  }

  function Prepend(b: bv8, rest: Option<seq<bv8>>): Option<seq<bv8>> {
    match rest
    case None => None
    case Some(s) => Some([b] + s)
  }

  /** The receiver's inverse of `Escape`; None on a raw FEND or a broken escape. */
  function Unescape(t: seq<bv8>): Option<seq<bv8>>
    decreases |t|
  {
    if t == [] then Some([])
    else if t[0] == FEND then None
    else if t[0] != FESC then Prepend(t[0], Unescape(t[1..]))
    else if |t| < 2 then None
    else if t[1] == TFEND then Prepend(FEND, Unescape(t[2..]))
    else if t[1] == TFESC then Prepend(FESC, Unescape(t[2..]))
    else None
  }

  /** Unescaping an escaped body gives back the body. */
  lemma {:induction false} UnescapeEscape(s: seq<bv8>)
    ensures Unescape(Escape(s)) == Some(s)
  {
    if s != [] {
      UnescapeEscape(s[1..]);
      var t := Escape(s);
      assert t == EscapeByte(s[0]) + Escape(s[1..]);
      if s[0] == FEND || s[0] == FESC {
        assert t[2..] == Escape(s[1..]);
      } else {
        assert t[1..] == Escape(s[1..]);
      }
      assert s == [s[0]] + s[1..];
    }
  }

  /** Every well-escaped sequence unescapes. */
  lemma {:induction false} WellEscapedUnescapes(t: seq<bv8>)
    requires WellEscaped(t)
    ensures Unescape(t).Some?
    decreases |t|
  {
    if t != [] {
      if t[0] != FESC {
        assert WellEscaped(t[1..]) by {
          forall i | 0 <= i < |t[1..]| && t[1..][i] == FESC
            ensures i + 1 < |t[1..]| && (t[1..][i + 1] == TFEND || t[1..][i + 1] == TFESC)
          {
            assert t[i + 1] == FESC;
          }
        }
        WellEscapedUnescapes(t[1..]);
      } else {
        assert WellEscaped(t[2..]) by {
          forall i | 0 <= i < |t[2..]| && t[2..][i] == FESC
            ensures i + 1 < |t[2..]| && (t[2..][i + 1] == TFEND || t[2..][i + 1] == TFESC)
          {
            assert t[i + 2] == FESC;
          }
        }
        WellEscapedUnescapes(t[2..]);
      }
    }
  }

  /**
   * Whatever unescapes successfully is the escape of what it gives. With
   * `EscapeWellEscaped` and `WellEscapedUnescapes`, escaping is a bijection
   * onto the well-escaped sequences.
   */
  lemma {:induction false} EscapeUnescape(t: seq<bv8>)
    requires Unescape(t).Some?
    ensures Escape(Unescape(t).value) == t
    decreases |t|
  {
    if t != [] {
      var s := Unescape(t).value;
      if t[0] != FESC {
        EscapeUnescape(t[1..]);
        assert s == [t[0]] + Unescape(t[1..]).value;
        assert s[1..] == Unescape(t[1..]).value;
        assert t == [t[0]] + t[1..];
      } else {
        EscapeUnescape(t[2..]);
        assert s[1..] == Unescape(t[2..]).value;
        assert t == t[..2] + t[2..];
      }
    }
  }

  /** Escaping is onto the well-escaped sequences: each is the escape of exactly what it unescapes to. */
  lemma EscapeOnto(t: seq<bv8>)
    requires WellEscaped(t)
    ensures Unescape(t).Some? && Escape(Unescape(t).value) == t
  {
    WellEscapedUnescapes(t);
    EscapeUnescape(t);
  }

  /** The bytes `write_kiss_frame` sends for `frame`. */
  function KissFrame(frame: seq<bv8>): (r: seq<bv8>)
    ensures |r| == 3 + |frame| + SpecialCount(frame)
    ensures r[0] == FEND && r[1] == CMD_DATA && r[|r| - 1] == FEND
    ensures forall i :: 1 < i < |r| - 1 ==> r[i] != FEND
  {
    EscapeLength(frame);
    EscapeWellEscaped(frame);
    [FEND, CMD_DATA] + Escape(frame) + [FEND]
  }

  datatype KissPacket = KissPacket(command: bv8, data: seq<bv8>)

  /** The receiving side: delimiters at both ends, the command byte, then the unescaped data. */
  function KissDecode(r: seq<bv8>): Option<KissPacket> {
    if |r| < 3 || r[0] != FEND || r[|r| - 1] != FEND then None
    else match Unescape(r[2..|r| - 1])
      case None => None
      case Some(data) => Some(KissPacket(r[1], data))
  }

  /** Decoding a KISS frame gives back the data command and the frame. */
  lemma KissRoundTrip(frame: seq<bv8>)
    ensures KissDecode(KissFrame(frame)) == Some(KissPacket(CMD_DATA, frame))
  {
    var r := KissFrame(frame);
    assert r[2..|r| - 1] == Escape(frame);
    UnescapeEscape(frame);
  }

  /** One more byte sent through the escaping loop keeps the loop's invariant. */
  lemma EscapedOneMore(header: seq<bv8>, s: seq<bv8>, i: nat, before: seq<bv8>, after: seq<bv8>)
    requires i < |s|
    requires before == header + Escape(s[..i])
    requires after == before + EscapeByte(s[i])
    ensures after == header + Escape(s[..i + 1])
  {
    assert s[..i + 1] == s[..i] + [s[i]];
    EscapeAppend(s[..i], [s[i]]);
    assert Escape([s[i]]) == EscapeByte(s[i]) + Escape([]);
  }

  /** One pass of the escaping loop: `b`, or its two-byte escape, goes to the stream. */
  method PutEscaped(stream: OutputStream, b: bv8)
    modifies stream
    ensures stream.written == old(stream.written) + EscapeByte(b)
  {
    if b == FEND {
      stream.PutByte(FESC);
      stream.PutByte(TFEND);
    } else if b == FESC {
      stream.PutByte(FESC);
      stream.PutByte(TFESC);
    } else {
      stream.PutByte(b);
    }
  }

  /** The opening bytes, the escaped body and the closing FEND, written in turn, are the KISS frame. */
  lemma KissAssembled(start: seq<bv8>, header: seq<bv8>, body: seq<bv8>, written: seq<bv8>)
    requires header == start + [FEND, CMD_DATA]
    requires written == header + Escape(body) + [FEND]
    ensures written == start + KissFrame(body)
  {
  }

  /**
   * `write_kiss_frame(stream, frame, length)`: appends the KISS frame for the
   * first `length` bytes of `frame` to the stream, one `fputc` at a time.
   */
  method WriteKissFrame(stream: OutputStream, frame: array<bv8>, length: int)
    requires length <= frame.Length
    modifies stream
    ensures stream.written == old(stream.written) + KissFrame(frame[..Covered(length)])
  {
    stream.PutByte(FEND);
    stream.PutByte(CMD_DATA);
    ghost var header := stream.written;
    ghost var data := frame[..];
    var i := 0;
    while i < length
      invariant 0 <= i <= Covered(length)
      invariant stream.written == header + Escape(data[..i])
    {
      ghost var before := stream.written;
      PutEscaped(stream, frame[i]);
      EscapedOneMore(header, data, i, before, stream.written);
      i := i + 1;
    }
    assert data[..i] == frame[..Covered(length)];
    stream.PutByte(FEND);
    KissAssembled(old(stream.written), header, data[..i], stream.written);
  }
}
