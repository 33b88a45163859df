/**
 * The AX.25 UI-frame builder: destination address, source address (marked as
 * the last address), control byte 0x03 (Unnumbered Information), PID 0xF0 (no
 * layer 3), the payload verbatim, then the 16-bit checksum of everything
 * before it, low byte first. There is no payload-length check and no error
 * return: the frame is always 18 bytes longer than the payload.
 */
module Ax25Frame {
  import opened Bytes
  import opened Crc16
  import opened Ax25Address

  const CONTROL_UI: bv8 := 0x03
  const PID_NO_LAYER3: bv8 := 0xF0
  /** Two address fields, control, PID and the two checksum bytes. */
  const FRAME_OVERHEAD := 18

  /** Everything the checksum covers: the two address fields, control, PID and the payload. */
  function FrameBody(dest: Address, src: Address, payload: seq<bv8>): (body: seq<bv8>)
    ensures |body| == 16 + |payload|
    ensures body[..7] == AddressField(dest.call, dest.ssid, false)
    ensures body[7..14] == AddressField(src.call, src.ssid, true)
    ensures body[14] == CONTROL_UI && body[15] == PID_NO_LAYER3
    ensures body[16..] == payload
  {
    AddressField(dest.call, dest.ssid, false) + AddressField(src.call, src.ssid, true)
      + [CONTROL_UI, PID_NO_LAYER3] + payload
  }

  /** The frame `ax25_generate_ui_frame` writes for `payload`. */
  function UiFrame(dest: Address, src: Address, payload: seq<bv8>): (frame: seq<bv8>)
    ensures |frame| == FRAME_OVERHEAD + |payload|
    ensures frame[..16 + |payload|] == FrameBody(dest, src, payload)
    // the two trailing bytes: the checksum of all preceding bytes, low byte first
    ensures var fcs := Crc(frame[..16 + |payload|]);
      frame[16 + |payload|] == Lo(fcs) && frame[17 + |payload|] == Hi(fcs)
  {
    var body := FrameBody(dest, src, payload);
    body + [Lo(Crc(body)), Hi(Crc(body))]
  }

  /** A UI frame as a receiver reads it back. */
  datatype UiFields = UiFields(dest: DecodedAddress, src: DecodedAddress, payload: seq<bv8>)

  /**
   * The receiving side: accept a frame of at least 18 bytes whose destination
   * is not marked last, whose source is, whose control and PID bytes are
   * those of a UI frame without layer 3, and whose trailing two bytes are the
   * checksum of the rest, low byte first.
   */
  function ParseUiFrame(frame: seq<bv8>): Option<UiFields> {
    if |frame| < FRAME_OVERHEAD then None
    else
      var n := |frame| - FRAME_OVERHEAD;
      var fcs := Crc(frame[..16 + n]);
      if frame[6] & 1 != 0 || frame[13] & 1 != 1
         || frame[14] != CONTROL_UI || frame[15] != PID_NO_LAYER3
         || frame[16 + n] != Lo(fcs) || frame[17 + n] != Hi(fcs)
      then None
      else Some(UiFields(DecodeAddress(frame[..7]), DecodeAddress(frame[7..14]), frame[16..16 + n]))
  }

  /** Every frame the builder produces is accepted and gives back its addresses and payload. */
  lemma ParseBuiltFrame(dest: Address, src: Address, payload: seq<bv8>)
    requires WellFormed(dest) && WellFormed(src)
    ensures ParseUiFrame(UiFrame(dest, src, payload)) == Some(UiFields(
      DecodedAddress(dest.call[..StrLen(dest.call)], dest.ssid, false),
      DecodedAddress(src.call[..StrLen(src.call)], src.ssid, true),
      payload))
  {
    var frame := UiFrame(dest, src, payload);
    var body := FrameBody(dest, src, payload);
    assert frame[..7] == body[..7] && frame[7..14] == body[7..14];
    assert frame[16..16 + |payload|] == body[16..];
    AddressRoundTrip(dest, false);
    AddressRoundTrip(src, true);
  }

  /**
   * A built frame with any one byte of its checksummed part changed is
   * rejected by the receiver.
   */
  lemma CorruptedFrameRejected(dest: Address, src: Address, payload: seq<bv8>, i: nat, b: bv8)
    requires i < 16 + |payload|
    requires b != UiFrame(dest, src, payload)[i]
    ensures ParseUiFrame(UiFrame(dest, src, payload)[i := b]) == None
  {
    var frame := UiFrame(dest, src, payload);
    var n := |payload|;
    var body := frame[..16 + n];
    var bad := frame[i := b];
    assert bad[..16 + n] == body[i := b];
    DetectsSingleByteError(body, i, b);
    assert bad[16 + n] == frame[16 + n] && bad[17 + n] == frame[17 + n];
    if bad[16 + n] == Lo(Crc(bad[..16 + n])) && bad[17 + n] == Hi(Crc(bad[..16 + n])) {
      WordFromBytes(Crc(bad[..16 + n]), Crc(body));
    }
  }

  /** The pieces `ax25_generate_ui_frame` writes, one after another, make up the UI frame. */
  lemma FrameAssembled(dest: Address, src: Address, payload: seq<bv8>, header: seq<bv8>, fcs: bv16)
    requires header == AddressField(dest.call, dest.ssid, false) + AddressField(src.call, src.ssid, true)
                       + [CONTROL_UI] + [PID_NO_LAYER3]
    requires fcs == Crc(header + payload)
    ensures header + payload + [Lo(fcs)] + [Hi(fcs)] == UiFrame(dest, src, payload)
  {
    assert header + payload == FrameBody(dest, src, payload);
  }

  /**
   * `ax25_generate_ui_frame(buf, dest, src, payload, payloadLen)`: writes the
   * frame at the start of `buf` with a `pos` cursor and returns its length,
   * which is never 0. The caller's buffer must hold the whole frame.
   */
  method GenerateUiFrame(buf: array<bv8>, dest: Address, src: Address, payload: array<bv8>, payloadLen: int)
    returns (len: int)
    requires 0 <= payloadLen <= payload.Length
    requires FRAME_OVERHEAD + payloadLen <= buf.Length
    requires payload != buf
    modifies buf
    ensures len == FRAME_OVERHEAD + payloadLen
    ensures buf[..len] == UiFrame(dest, src, payload[..payloadLen])
    ensures buf[len..] == old(buf[len..])
  {
    ghost var orig := buf[..];
    ghost var destField := AddressField(dest.call, dest.ssid, false);
    ghost var srcField := AddressField(src.call, src.ssid, true);
    ghost var before: seq<bv8>;
    var data := payload[..payloadLen];
    var pos := 0;
    // the first `pos` bytes are written, the rest still hold what the caller left there
    assert buf[..pos] == [] && buf[pos..] == orig[pos..];
    before := buf[..];
    EncodeAddress(dest.call, dest.ssid, buf, pos, false);
    Spliced(before, buf[..], orig, [], destField);
    pos := pos + 7;
    before := buf[..];
    EncodeAddress(src.call, src.ssid, buf, pos, true);
    Spliced(before, buf[..], orig, destField, srcField);
    pos := pos + 7;
    before := buf[..];
    buf[pos] := CONTROL_UI;
    SplicedByte(before, buf[..], orig, destField + srcField, CONTROL_UI);
    pos := pos + 1;
    before := buf[..];
    buf[pos] := PID_NO_LAYER3;
    SplicedByte(before, buf[..], orig, destField + srcField + [CONTROL_UI], PID_NO_LAYER3);
    pos := pos + 1;
    ghost var header := destField + srcField + [CONTROL_UI] + [PID_NO_LAYER3];
    before := buf[..];
    WriteBytes(buf, pos, data);
    Spliced(before, buf[..], orig, header, data);
    pos := pos + payloadLen;
    ghost var body := header + data;
    var fcs := CalculateCrc(buf, pos);
    assert buf[..Covered(pos)] == body;
    before := buf[..];
    buf[pos] := Lo(fcs);
    SplicedByte(before, buf[..], orig, body, Lo(fcs));
    pos := pos + 1;
    before := buf[..];
    buf[pos] := Hi(fcs);
    SplicedByte(before, buf[..], orig, body + [Lo(fcs)], Hi(fcs));
    pos := pos + 1;
    len := pos;
    FrameAssembled(dest, src, data, header, fcs);
  }

  /**
   * A worked example: payload "HELLO" from N0CALL-1 to CQ-0. The 21 bytes the checksum covers, and the frame with its checksum
   * 0x5F57 appended low byte first.
   */
  const HELLO_DEST: seq<bv8> := [0x86, 0xA2, 0x40, 0x40, 0x40, 0x40, 0x60]
  const HELLO_SRC: seq<bv8> := [0x9C, 0x60, 0x86, 0x82, 0x98, 0x98, 0x63]
  const HELLO_TAIL: seq<bv8> := [0x03, 0xF0, 0x48, 0x45, 0x4C, 0x4C, 0x4F]
  const HELLO_BODY: seq<bv8> := HELLO_DEST + HELLO_SRC + HELLO_TAIL

  /** The register across the example's destination address field. */
  lemma HelloDestRegister()
    ensures RegisterFrom(0xFFFF, HELLO_DEST) == 0x9249
  {
    UpdateByteUnrolled(0xFFFF, 0x86);
    UpdateByteUnrolled(0x10BE, 0xA2);
    UpdateByteUnrolled(0x3999, 0x40);
    UpdateByteUnrolled(0x76BE, 0x40);
    UpdateByteUnrolled(0xE895, 0x40);
    UpdateByteUnrolled(0xA1E2, 0x40);
    UpdateByteUnrolled(0x0F0F, 0x60);
    var s := HELLO_DEST;
    assert RegisterFrom(0x0F0F, s[6..]) == 0x9249;
    assert RegisterFrom(0xA1E2, s[5..]) == 0x9249;
    assert RegisterFrom(0xE895, s[4..]) == 0x9249;
    assert RegisterFrom(0x76BE, s[3..]) == 0x9249;
    assert RegisterFrom(0x3999, s[2..]) == 0x9249;
    assert RegisterFrom(0x10BE, s[1..]) == 0x9249;
  }

  /** The register across the example's source address field. */
  lemma HelloSrcRegister()
    ensures RegisterFrom(0x9249, HELLO_SRC) == 0x8C78
  {
    UpdateByteUnrolled(0x9249, 0x9C);
    UpdateByteUnrolled(0xA8CE, 0x60);
    UpdateByteUnrolled(0x9644, 0x86);
    UpdateByteUnrolled(0x5631, 0x82);
    UpdateByteUnrolled(0xBAF9, 0x98);
    UpdateByteUnrolled(0xFD20, 0x98);
    UpdateByteUnrolled(0x1C03, 0x63);
    var s := HELLO_SRC;
    assert RegisterFrom(0x1C03, s[6..]) == 0x8C78;
    assert RegisterFrom(0xFD20, s[5..]) == 0x8C78;
    assert RegisterFrom(0xBAF9, s[4..]) == 0x8C78;
    assert RegisterFrom(0x5631, s[3..]) == 0x8C78;
    assert RegisterFrom(0x9644, s[2..]) == 0x8C78;
    assert RegisterFrom(0xA8CE, s[1..]) == 0x8C78;
  }

  /** The register across the example's control, PID and payload. */
  lemma HelloTailRegister()
    ensures RegisterFrom(0x8C78, HELLO_TAIL) == 0xA0A8
  {
    UpdateByteUnrolled(0x8C78, 0x03);
    UpdateByteUnrolled(0x1867, 0xF0);
    UpdateByteUnrolled(0x1B26, 0x48);
    UpdateByteUnrolled(0x4C96, 0x45);
    UpdateByteUnrolled(0x0729, 0x4C);
    UpdateByteUnrolled(0xD0AF, 0x4C);
    UpdateByteUnrolled(0xED35, 0x4F);
    var s := HELLO_TAIL;
    assert RegisterFrom(0xED35, s[6..]) == 0xA0A8;
    assert RegisterFrom(0xD0AF, s[5..]) == 0xA0A8;
    assert RegisterFrom(0x0729, s[4..]) == 0xA0A8;
    assert RegisterFrom(0x4C96, s[3..]) == 0xA0A8;
    assert RegisterFrom(0x1B26, s[2..]) == 0xA0A8;
    assert RegisterFrom(0x1867, s[1..]) == 0xA0A8;
  }
  /** The register after the 21 checked bytes of the example frame. */
  lemma HelloRegister()
    ensures RegisterFrom(INIT, HELLO_BODY) == 0xA0A8
  {
    HelloDestRegister();
    HelloSrcRegister();
    HelloTailRegister();
    RegisterFromChain(INIT, 0x9249, 0x8C78, 0xA0A8, HELLO_DEST, HELLO_SRC, HELLO_TAIL);
  }

  /** The example's destination field: "CQ", space-padded, SSID 0, not the last address. */
  lemma HelloDestField()
    ensures AddressField([0x43, 0x51], 0, false) == HELLO_DEST
  {
    assert StrLen([0x43, 0x51]) == 2;
  }

  /** The example's source field: "N0CALL", SSID 1, the last address. */
  lemma HelloSrcField()
    ensures AddressField([0x4E, 0x30, 0x43, 0x41, 0x4C, 0x4C], 1, true) == HELLO_SRC
  {
    assert StrLen([0x4E, 0x30, 0x43, 0x41, 0x4C, 0x4C]) == 6;
  }

  /** The complete 23-byte UI frame of the worked example. */
  lemma HelloFrame()
    ensures UiFrame(Address([0x43, 0x51], 0), Address([0x4E, 0x30, 0x43, 0x41, 0x4C, 0x4C], 1),
                    [0x48, 0x45, 0x4C, 0x4C, 0x4F])
         == HELLO_BODY + [0x57, 0x5F]
  {
    var dest := Address([0x43, 0x51], 0);
    var src := Address([0x4E, 0x30, 0x43, 0x41, 0x4C, 0x4C], 1);
    HelloDestField();
    HelloSrcField();
    assert FrameBody(dest, src, [0x48, 0x45, 0x4C, 0x4C, 0x4F]) == HELLO_BODY;
    HelloRegister();
  }
}
