/**
 * Byte-level vocabulary shared by the three stages of the packetizer:
 * an Option for decoders, C string length, the reading of a C `int` byte
 * count, the two halves of a 16-bit word, the `memcpy` into a caller
 * buffer, and the output stream the KISS stage writes to.
 */
module Bytes {

  datatype Option<T> = None | Some(value: T)

  /** How many bytes a C `int` count covers: the count clamped at 0. */
  function Covered(n: int): nat {
    if n < 0 then 0 else n
  }

  /** `strlen`: the number of bytes before the first NUL, or the whole buffer if it holds none. */
  function StrLen(s: seq<bv8>): (n: nat)
    ensures n <= |s|
    ensures forall i :: 0 <= i < n ==> s[i] != 0
    ensures n < |s| ==> s[n] == 0
  {
    if s == [] || s[0] == 0 then 0 else 1 + StrLen(s[1..])
  }

  /** The low byte of a 16-bit word, `w & 0xFF`. */
  function Lo(w: bv16): (r: bv8)
    ensures r as bv16 == w % 256
  {
    (w & 0xFF) as bv8
  }

  /** The high byte of a 16-bit word, `(w >> 8) & 0xFF`; the mask is implied for 16 bits. */
  function Hi(w: bv16): (r: bv8)
    ensures r as bv16 == w / 256
  {
    (w >> 8) as bv8
  }

  /** A word is determined by its two bytes. */
  lemma WordFromBytes(a: bv16, b: bv16)
    requires Lo(a) == Lo(b) && Hi(a) == Hi(b)
    ensures a == b
  {
    assert Lo(a) as bv16 == a & 0xFF && Hi(a) as bv16 == a >> 8;
    assert Lo(b) as bv16 == b & 0xFF && Hi(b) as bv16 == b >> 8;
    assert a == ((a >> 8) << 8) | (a & 0xFF);
    assert b == ((b >> 8) << 8) | (b & 0xFF);
  }

  /**
   * `memcpy(&dst[off], src, |src|)`: the bytes of `src` land at `off`,
   * everything else in `dst` keeps its value.
   */
  method WriteBytes(dst: array<bv8>, off: nat, src: seq<bv8>)
    requires off + |src| <= dst.Length
    modifies dst
    ensures dst[..] == old(dst[..off]) + src + old(dst[off + |src|..])
  {
    for k := 0 to |src|
      invariant forall j :: 0 <= j < dst.Length ==>
        dst[j] == if off <= j < off + k then src[j - off] else old(dst[j])
    {
      dst[off + k] := src[k];
    }
    assert dst[..] == old(dst[..off]) + src + old(dst[off + |src|..]);
  }

  /**
   * A buffer filled left to right: when `before` holds `pre` up to the cursor
   * and the original bytes after it, writing `mid` at the cursor leaves
   * `pre + mid` up to the advanced cursor and the original bytes after it.
   */
  lemma Spliced(before: seq<bv8>, now: seq<bv8>, orig: seq<bv8>, pre: seq<bv8>, mid: seq<bv8>)
    requires |pre| + |mid| <= |before| == |orig|
    requires before[..|pre|] == pre && before[|pre|..] == orig[|pre|..]
    requires now == before[..|pre|] + mid + before[|pre| + |mid|..]
    ensures now[..|pre| + |mid|] == pre + mid
    ensures now[|pre| + |mid|..] == orig[|pre| + |mid|..]
  {
    assert before[|pre| + |mid|..] == orig[|pre|..][|mid|..];
  }

  /** `Spliced` for a single byte stored at the cursor. */
  lemma SplicedByte(before: seq<bv8>, now: seq<bv8>, orig: seq<bv8>, pre: seq<bv8>, b: bv8)
    requires |pre| < |before| == |orig|
    requires before[..|pre|] == pre && before[|pre|..] == orig[|pre|..]
    requires now == before[|pre| := b]
    ensures now[..|pre| + 1] == pre + [b]
    ensures now[|pre| + 1..] == orig[|pre| + 1..]
  {
    assert now == before[..|pre|] + [b] + before[|pre| + 1..];
    Spliced(before, now, orig, pre, [b]);
  }

  /**
   * A byte sink opened for writing (a C `FILE*`): the bytes written so far,
   * in order. Write errors are not modelled.
   */
  class OutputStream {
    var written: seq<bv8>

    constructor ()
      ensures written == []
    {
      written := [];
    }

    /** `fputc(b, stream)`. */
    method PutByte(b: bv8)
      modifies this
      ensures written == old(written) + [b]
    {
      written := written + [b];
    }
  }
}
