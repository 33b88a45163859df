/**
 * The FX.25 forward-error-correction wrapper: an AX.25 frame of at most 223
 * bytes becomes an 8-byte correlation tag followed by a Reed-Solomon (255,223)
 * codeword, the frame zero-padded to 223 data bytes and then 32 parity bytes.
 *
 * The parity comes from a Reed-Solomon library (symbol size 8, field
 * polynomial 0x187, first consecutive root 112, primitive-root step 11, 32
 * roots, no padding) whose arithmetic is not part of this model: the encoder
 * holds it as a function from the 223-byte data block to 32 bytes.
 */
module Fx25 {
  import opened Bytes

  /** Data bytes in a Reed-Solomon block. */
  const FX25_K := 223
  /** Total bytes (data and parity) in a Reed-Solomon block. */
  const FX25_N := 255
  const PARITY_LEN := FX25_N - FX25_K
  const TAG_LEN := 8
  /** Correlation tag, then codeword. */
  const FX25_FRAME_LEN := TAG_LEN + FX25_N

  const CORR_TAG: seq<bv8> := [0xCC, 0x8F, 0x8A, 0xE4, 0x85, 0xE2, 0x98, 0x01]

  /** The parity computation of the Reed-Solomon codec: 32 bytes for every block. */
  type ParityFn = f: seq<bv8> -> seq<bv8> | forall block :: |f(block)| == PARITY_LEN
    witness (block: seq<bv8>) => seq(PARITY_LEN, i => 0)

  /** The 223-byte data block: the frame followed by zeros. */
  function DataBlock(frame: seq<bv8>): (block: seq<bv8>)
    requires |frame| <= FX25_K
    ensures |block| == FX25_K
    ensures block[..|frame|] == frame
    ensures forall i :: |frame| <= i < FX25_K ==> block[i] == 0
  {
    frame + seq(FX25_K - |frame|, i => 0)
  }

  /** The 263 bytes `fx25_encode_frame` writes for `frame`. */
  function Fx25Frame(frame: seq<bv8>, parity: ParityFn): (out: seq<bv8>)
    requires |frame| <= FX25_K
    ensures |out| == FX25_FRAME_LEN
    ensures out[..TAG_LEN] == CORR_TAG
    ensures out[TAG_LEN..TAG_LEN + |frame|] == frame
    ensures forall i :: TAG_LEN + |frame| <= i < TAG_LEN + FX25_K ==> out[i] == 0
    ensures out[TAG_LEN + FX25_K..] == parity(out[TAG_LEN..TAG_LEN + FX25_K])
  {
    var block := DataBlock(frame);
    assert (CORR_TAG + block + parity(block))[TAG_LEN..TAG_LEN + FX25_K] == block;
    CORR_TAG + block + parity(block)
  }

  /** The FX.25 frame is the tag followed by the codeword, data block then parity. */
  lemma Fx25FrameIsTagAndCodeword(frame: seq<bv8>, parity: ParityFn)
    requires |frame| <= FX25_K
    ensures Fx25Frame(frame, parity) == CORR_TAG + (DataBlock(frame) + parity(DataBlock(frame)))
  {
  }

  /**
   * The receiving side for an error-free codeword: check the tag and the
   * parity, give back the 223-byte data block.
   */
  function Fx25DataBlock(received: seq<bv8>, parity: ParityFn): Option<seq<bv8>> {
    if |received| != FX25_FRAME_LEN || received[..TAG_LEN] != CORR_TAG then None
    else
      var block := received[TAG_LEN..TAG_LEN + FX25_K];
      if received[TAG_LEN + FX25_K..] != parity(block) then None else Some(block)
  }

  /**
   * An encoded frame is accepted, and the frame is the first `|frame|` bytes
   * of its data block, the rest being zero padding.
   */
  lemma Fx25FrameRecovered(frame: seq<bv8>, parity: ParityFn)
    requires |frame| <= FX25_K
    ensures var block := Fx25DataBlock(Fx25Frame(frame, parity), parity);
      block == Some(DataBlock(frame)) && block.value[..|frame|] == frame
  {
    var out := Fx25Frame(frame, parity);
    assert out[TAG_LEN..TAG_LEN + FX25_K] == DataBlock(frame);
  }

  /**
   * The converse: every 263 bytes the receiver accepts whose data block is
   * `frame` followed by zeros are the encoding of `frame`. So the encoder's
   * output is the only accepted frame carrying that data.
   */
  lemma Fx25FrameUnique(frame: seq<bv8>, parity: ParityFn)
    requires |frame| <= FX25_K
    ensures forall received :: Fx25DataBlock(received, parity) == Some(DataBlock(frame)) ==>
      received == Fx25Frame(frame, parity)
  {
    forall received | Fx25DataBlock(received, parity) == Some(DataBlock(frame))
      ensures received == Fx25Frame(frame, parity)
    {
      var block := DataBlock(frame);
      assert received == CORR_TAG + block + parity(block);
    }
  }

  /** `fx25_encoder_t`: a handle on an initialised Reed-Solomon codec. */
  class Encoder {
    const parity: ParityFn
    /** False once `fx25_cleanup` has released the codec. */
    var live: bool

    constructor (parity: ParityFn)
      ensures this.parity == parity && live
    {
      this.parity := parity;
      live := true;
    }

    /** `fx25_cleanup(encoder)`. */
    method Cleanup()
      modifies this
      ensures !live
    {
      live := false;
    }

    /**
     * `fx25_encode_frame(encoder, frame, len, out)`: a frame longer than 223
     * bytes gives 0 and `out` untouched; otherwise the 263 FX.25 bytes are
     * written at the start of `out` and 263 is returned. The data block is
     * assembled in a scratch block of 255 bytes, as the C code does, whose
     * last 32 bytes receive the parity.
     */
    method EncodeFrame(frame: array<bv8>, len: int, out: array<bv8>) returns (n: int)
      requires live
      requires 0 <= len
      requires len <= FX25_K ==> len <= frame.Length && FX25_FRAME_LEN <= out.Length
      requires frame != out
      modifies out
      ensures len > FX25_K ==> n == 0 && out[..] == old(out[..])
      ensures len <= FX25_K ==> n == FX25_FRAME_LEN
      ensures len <= FX25_K ==> out[..FX25_FRAME_LEN] == Fx25Frame(frame[..len], parity)
      ensures len <= FX25_K ==> out[FX25_FRAME_LEN..] == old(out[FX25_FRAME_LEN..])
    {
      if len > FX25_K {
        return 0;
      }
      ghost var orig := out[..];
      WriteBytes(out, 0, CORR_TAG);
      Spliced(orig, out[..], orig, [], CORR_TAG);
      var block := new bv8[FX25_N](i => 0);
      WriteBytes(block, 0, frame[..len]);
      ghost var data := DataBlock(frame[..len]);
      assert block[..FX25_K] == data;
      WriteBytes(block, FX25_K, parity(block[..FX25_K]));
      assert block[..] == data + parity(data);
      ghost var before := out[..];
      WriteBytes(out, TAG_LEN, block[..]);
      Spliced(before, out[..], orig, CORR_TAG, data + parity(data));
      Fx25FrameIsTagAndCodeword(frame[..len], parity);
      n := TAG_LEN + FX25_N;
    }
  }

  /**
   * `fx25_init()`: `codec` is what the Reed-Solomon library's initialisation
   * gave back (None when it, or the allocation, failed); the result is null
   * exactly then.
   */
  method Init(codec: Option<ParityFn>) returns (enc: Encoder?)
    ensures codec.None? ==> enc == null
    ensures codec.Some? ==> enc != null && fresh(enc) && enc.live && enc.parity == codec.value
  {
    if codec.None? {
      return null;
    }
    enc := new Encoder(codec.value);
  }
}
