/**
 * The per-chunk pipeline of the packetizer's main loop: each chunk of input
 * becomes an AX.25 UI frame, the frame becomes an FX.25 frame, and the FX.25
 * frame is written to the output in KISS format; a counter records the
 * packets written. Reading the input, parsing the command line and opening
 * files are not part of this model: the chunks the input delivered and the
 * two addresses are parameters.
 */
module Packetizer {
  import opened Bytes
  import opened Ax25Address
  import opened Ax25Frame
  import opened Fx25
  import opened Kiss

  /** Largest chunk read from the input, chosen so that a frame always fits one FX.25 block. */
  const MAX_PAYLOAD := 150
  /** Size of the AX.25 and FX.25 scratch buffers. */
  const BUFFER_LEN := 512

  /** The chunks one run reads: each read returned between 1 and MAX_PAYLOAD bytes. */
  predicate ValidChunks(chunks: seq<seq<bv8>>) {
    forall k :: 0 <= k < |chunks| ==> 0 < |chunks[k]| <= MAX_PAYLOAD
  }

  /** A chunk's frame always fits the FX.25 data block: 18 + 150 = 168 <= 223. */
  lemma FrameFitsBlock(dest: Address, src: Address, chunk: seq<bv8>)
    requires |chunk| <= MAX_PAYLOAD
    ensures |UiFrame(dest, src, chunk)| <= FRAME_OVERHEAD + MAX_PAYLOAD
    ensures |UiFrame(dest, src, chunk)| <= FX25_K
  {
  }

  /** The bytes written for one chunk. */
  function Packet(dest: Address, src: Address, parity: ParityFn, chunk: seq<bv8>): (p: seq<bv8>)
    requires |chunk| <= MAX_PAYLOAD
    ensures 3 + FX25_FRAME_LEN <= |p| <= 3 + 2 * FX25_FRAME_LEN
  {
    KissFrame(Fx25Frame(UiFrame(dest, src, chunk), parity))
  }

  /** The packets for a run of chunks, one per chunk, in order. */
  function Packets(dest: Address, src: Address, parity: ParityFn, chunks: seq<seq<bv8>>): (ps: seq<seq<bv8>>)
    requires ValidChunks(chunks)
    ensures |ps| == |chunks|
    ensures forall k :: 0 <= k < |chunks| ==> ps[k] == Packet(dest, src, parity, chunks[k])
  {
    seq(|chunks|, k requires 0 <= k < |chunks| => Packet(dest, src, parity, chunks[k]))
  }

  /** The bytes of `parts` one after another. */
  function Flatten(parts: seq<seq<bv8>>): seq<bv8> {
    if parts == [] then [] else Flatten(parts[..|parts| - 1]) + parts[|parts| - 1]
  }

  /** Appending part k to the flattened first k parts gives the flattened first k + 1. */
  lemma FlattenStep(parts: seq<seq<bv8>>, k: nat, start: seq<bv8>, before: seq<bv8>, after: seq<bv8>)
    requires k < |parts|
    requires before == start + Flatten(parts[..k])
    requires after == before + parts[k]
    ensures after == start + Flatten(parts[..k + 1])
  {
    assert parts[..k + 1][..k] == parts[..k];
  }

  /**
   * What a receiver recovers from one packet: the KISS data command, an FX.25
   * frame whose tag and parity check, whose data block starts with an AX.25
   * frame that parses back to the two addresses and the chunk.
   */
  lemma PacketDecodes(dest: Address, src: Address, parity: ParityFn, chunk: seq<bv8>)
    requires |chunk| <= MAX_PAYLOAD
    requires WellFormed(dest) && WellFormed(src)
    ensures var fx := Fx25Frame(UiFrame(dest, src, chunk), parity);
      && KissDecode(Packet(dest, src, parity, chunk)) == Some(KissPacket(CMD_DATA, fx))
      && Fx25DataBlock(fx, parity).Some?
      && ParseUiFrame(Fx25DataBlock(fx, parity).value[..FRAME_OVERHEAD + |chunk|]) == Some(UiFields(
           DecodedAddress(dest.call[..StrLen(dest.call)], dest.ssid, false),
           DecodedAddress(src.call[..StrLen(src.call)], src.ssid, true),
           chunk))
  {
    var frame := UiFrame(dest, src, chunk);
    KissRoundTrip(Fx25Frame(frame, parity));
    Fx25FrameRecovered(frame, parity);
    ParseBuiltFrame(dest, src, chunk);
  }

  /** `fread` into the payload buffer: the chunk lands at its start. */
  method ReadChunk(buf: array<bv8>, chunk: seq<bv8>) returns (bytesRead: int)
    requires |chunk| <= buf.Length
    modifies buf
    ensures bytesRead == |chunk| && buf[..bytesRead] == chunk
    ensures buf[bytesRead..] == old(buf[bytesRead..])
  {
    WriteBytes(buf, 0, chunk);
    bytesRead := |chunk|;
  }

  /**
   * Steps A to C of one pass of `main`'s loop: build the AX.25 frame of the
   * chunk in the payload buffer, FEC-encode it and write it in KISS format.
   * Neither skip branch (frame builder or FEC encoder returning 0) is ever
   * taken, so the chunk's packet is always written.
   */
  method SendChunk(enc: Encoder, dest: Address, src: Address, payloadBuffer: array<bv8>, bytesRead: int,
                   ax25Buffer: array<bv8>, fx25Buffer: array<bv8>, out: OutputStream)
    requires enc.live
    requires 0 < bytesRead <= MAX_PAYLOAD && bytesRead <= payloadBuffer.Length
    requires ax25Buffer.Length == BUFFER_LEN && fx25Buffer.Length == BUFFER_LEN
    requires payloadBuffer != ax25Buffer && ax25Buffer != fx25Buffer
    modifies ax25Buffer, fx25Buffer, out
    ensures out.written == old(out.written) + Packet(dest, src, enc.parity, old(payloadBuffer[..bytesRead]))
  {
    var ax25Len := GenerateUiFrame(ax25Buffer, dest, src, payloadBuffer, bytesRead);
    if ax25Len == 0 {
      assert false;
    }
    ghost var frame := UiFrame(dest, src, payloadBuffer[..bytesRead]);
    assert ax25Buffer[..ax25Len] == frame;
    FrameFitsBlock(dest, src, payloadBuffer[..bytesRead]);
    var fx25Len := enc.EncodeFrame(ax25Buffer, ax25Len, fx25Buffer);
    if fx25Len == 0 {
      assert false;
    }
    assert fx25Buffer[..fx25Len] == Fx25Frame(frame, enc.parity);
    WriteKissFrame(out, fx25Buffer, fx25Len);
  }

  /**
   * The processing loop of `main`: each chunk the input delivers is read into
   * the payload buffer and sent as one packet, then counted. Every chunk is
   * written, and the count is the number of chunks.
   */
  method ProcessChunks(enc: Encoder, dest: Address, src: Address, chunks: seq<seq<bv8>>, out: OutputStream)
    returns (packetCount: int)
    requires enc.live
    requires ValidChunks(chunks)
    modifies out
    ensures packetCount == |chunks|
    ensures out.written == old(out.written) + Flatten(Packets(dest, src, enc.parity, chunks))
  {
    var payloadBuffer := new bv8[MAX_PAYLOAD];
    var ax25Buffer := new bv8[BUFFER_LEN];
    var fx25Buffer := new bv8[BUFFER_LEN];
    ghost var packets := Packets(dest, src, enc.parity, chunks);
    packetCount := 0;
    var k := 0;
    assert Flatten(packets[..0]) == [];
    while k < |chunks|
      invariant 0 <= k <= |chunks|
      invariant packetCount == k
      invariant out.written == old(out.written) + Flatten(packets[..k])
    {
      ghost var written := out.written;
      var bytesRead := ReadChunk(payloadBuffer, chunks[k]);
      SendChunk(enc, dest, src, payloadBuffer, bytesRead, ax25Buffer, fx25Buffer, out);
      packetCount := packetCount + 1;
      FlattenStep(packets, k, old(out.written), written, out.written);
      k := k + 1;
    }
    assert packets[..k] == packets;
  }

  /**
   * `main` from initialisation to cleanup. When the Reed-Solomon codec cannot
   * be initialised, or the input or the output file cannot be opened, the run
   * fails with status 1 before any chunk is read and no output stream exists;
   * otherwise the output is created empty (`fopen` in mode "wb" truncates),
   * every chunk is written to it, the encoder is released and the status is 0.
   * Whether each file opens is a parameter.
   */
  method Packetize(codec: Option<ParityFn>, inputOpens: bool, outputOpens: bool,
                   dest: Address, src: Address, chunks: seq<seq<bv8>>)
    returns (status: int, packetCount: int, out: OutputStream?)
    requires ValidChunks(chunks)
    ensures var ok := codec.Some? && inputOpens && outputOpens;
      && (!ok ==> status == 1 && packetCount == 0 && out == null)
      && (ok ==> status == 0 && packetCount == |chunks| && out != null && fresh(out))
      && (ok ==> out.written == Flatten(Packets(dest, src, codec.value, chunks)))
  {
    var enc := Init(codec);
    if enc == null {
      return 1, 0, null;
    }
    if !inputOpens {
      enc.Cleanup();
      return 1, 0, null;
    }
    if !outputOpens {
      enc.Cleanup();
      return 1, 0, null;
    }
    var output := new OutputStream();
    packetCount := ProcessChunks(enc, dest, src, chunks, output);
    enc.Cleanup();
    status, out := 0, output;
  }
}
