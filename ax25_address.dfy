/**
 * The AX.25 address codec: a callsign and SSID packed into the fixed 7-byte
 * address field of AX.25 v2.2 (section 3.12). Bytes 0-5 hold the callsign,
 * space-padded, each character shifted left one bit; byte 6 holds the SSID in
 * bits 1-4, the two reserved bits 5 and 6 set, and the last-address flag in
 * bit 0.
 */
module Ax25Address {
  import opened Bytes

  const SPACE: bv8 := 0x20
  /** Bits 5 and 6 of the SSID byte, `0b01100000`. */
  const SSID_RESERVED: bv8 := 0x60

  /** A station address as the packetizer holds it: the callsign buffer (a C string) and the SSID byte. */
  datatype Address = Address(call: seq<bv8>, ssid: bv8)

  /** The callsign character `encode_address` places at position `i` (0 <= i < 6). */
  function CallsignByte(call: seq<bv8>, i: nat): bv8 {
    if i < StrLen(call) then call[i] else SPACE
  }

  /** A callsign character as it is sent: shifted left one bit, truncated to 8 bits. */
  function EncodedChar(c: bv8): (r: bv8)
    ensures r as int == (c as int * 2) % 256
  {
    c << 1
  }

  /** Byte 6 of the field: `(ssid << 1) | 0b01100000 | last`, truncated to 8 bits. */
  function SsidByte(ssid: bv8, last: bool): (r: bv8)
    ensures (r & 1 == 1) <==> last
    ensures r & SSID_RESERVED == SSID_RESERVED
    ensures ssid <= 15 ==> (r >> 1) & 0x0F == ssid && r & 0x80 == 0
  {
    (ssid << 1) | SSID_RESERVED | (if last then 1 else 0)
  }

  /** The 7-byte address field for callsign `call`, SSID `ssid` and the last-address flag. */
  function AddressField(call: seq<bv8>, ssid: bv8, last: bool): (r: seq<bv8>)
    ensures |r| == 7
    ensures forall i :: 0 <= i < 6 ==> r[i] == EncodedChar(CallsignByte(call, i))
    ensures r[6] == SsidByte(ssid, last)
  {
    seq(6, i requires 0 <= i < 6 => EncodedChar(CallsignByte(call, i))) + [SsidByte(ssid, last)]
  }

  /**
   * The callsign bytes of the field: each character before the NUL (at most
   * six) doubled modulo 256, and 0x40, a shifted space, in the rest.
   */
  lemma CallsignBytes(call: seq<bv8>, ssid: bv8, last: bool)
    ensures var r := AddressField(call, ssid, last);
      && (forall i :: 0 <= i < 6 && i < StrLen(call) ==> r[i] as int == (call[i] as int * 2) % 256)
      && (forall i :: StrLen(call) <= i < 6 ==> r[i] == 0x40)
  {
  }

  /** A C string cut before its NUL, or at any earlier point, has that length. */
  lemma {:induction false} StrLenOfPrefix(s: seq<bv8>, k: nat)
    requires k <= StrLen(s)
    ensures StrLen(s[..k]) == k
  {
    if k > 0 {
      assert s[..k][1..] == s[1..][..k - 1];
      StrLenOfPrefix(s[1..], k - 1);
    }
  }

  /** Characters past the sixth, and anything after the NUL, never reach the address field. */
  lemma CallsignTruncated(call: seq<bv8>, ssid: bv8, last: bool)
    ensures var n := if StrLen(call) < 6 then StrLen(call) else 6;
      AddressField(call, ssid, last) == AddressField(call[..n], ssid, last)
  {
    var n := if StrLen(call) < 6 then StrLen(call) else 6;
    StrLenOfPrefix(call, n);
    assert forall i :: 0 <= i < 6 ==> CallsignByte(call, i) == CallsignByte(call[..n], i);
  }

  /** `s` with its trailing spaces removed. */
  function TrimTrailingSpaces(s: seq<bv8>): (r: seq<bv8>)
    ensures |r| <= |s| && r == s[..|r|]
    ensures r == [] || r[|r| - 1] != SPACE
    ensures forall i :: |r| <= i < |s| ==> s[i] == SPACE
    decreases |s|
  {
    if s != [] && s[|s| - 1] == SPACE then TrimTrailingSpaces(s[..|s| - 1]) else s
  }

  /** An address field as a receiver reads it back. */
  datatype DecodedAddress = DecodedAddress(callsign: seq<bv8>, ssid: bv8, last: bool)

  /** A received callsign byte shifted back to a character. */
  function DecodedChar(b: bv8): bv8 {
    b >> 1
  }

  /**
   * The receiving side of the codec: shift each callsign byte back, drop the
   * space padding, take the SSID from bits 1-4 and the flag from bit 0.
   */
  function DecodeAddress(field: seq<bv8>): DecodedAddress
    requires |field| == 7
  {
    DecodedAddress(
      TrimTrailingSpaces(seq(6, i requires 0 <= i < 6 => DecodedChar(field[i]))),
      (field[6] >> 1) & 0x0F,
      field[6] & 1 == 1)
  }

  /** A callsign character that survives the codec: printable ASCII other than space. */
  predicate IsCallsignChar(c: bv8) {
    0x21 <= c <= 0x7E
  }

  /** An address the codec represents exactly: at most six callsign characters and a 4-bit SSID. */
  predicate WellFormed(a: Address) {
    && StrLen(a.call) <= 6
    && (forall i :: 0 <= i < StrLen(a.call) ==> IsCallsignChar(a.call[i]))
    && a.ssid <= 15
  }

  lemma {:induction false} TrimPadding(x: seq<bv8>, s: seq<bv8>)
    requires |x| <= |s| && s[..|x|] == x
    requires x == [] || x[|x| - 1] != SPACE
    requires forall i :: |x| <= i < |s| ==> s[i] == SPACE
    ensures TrimTrailingSpaces(s) == x
  {
  }

  /** Shifting back recovers every 7-bit character. */
  lemma CharRoundTrip(c: bv8)
    requires c < 0x80
    ensures DecodedChar(EncodedChar(c)) == c
  {
  }

  /** Decoding inverts encoding for every well-formed address. */
  lemma AddressRoundTrip(a: Address, last: bool)
    requires WellFormed(a)
    ensures DecodeAddress(AddressField(a.call, a.ssid, last))
         == DecodedAddress(a.call[..StrLen(a.call)], a.ssid, last)
  {
    var field := AddressField(a.call, a.ssid, last);
    var n := StrLen(a.call);
    var shifted := seq(6, i requires 0 <= i < 6 => DecodedChar(field[i]));
    forall i | 0 <= i < 6
      ensures shifted[i] == CallsignByte(a.call, i)
    {
      CharRoundTrip(CallsignByte(a.call, i));
    }
    assert shifted[..n] == a.call[..n];
    TrimPadding(a.call[..n], shifted);
    assert DecodeAddress(field).callsign == a.call[..n];
    assert DecodeAddress(field).ssid == a.ssid;
    assert DecodeAddress(field).last == last;
  }

  /**
   * `encode_address(call, ssid, &out[off], last)`: fills the seven bytes at
   * `off` with the address field and leaves the rest of `out` alone.
   */
  method EncodeAddress(call: seq<bv8>, ssid: bv8, out: array<bv8>, off: nat, last: bool)
    requires off + 7 <= out.Length
    modifies out
    ensures out[..] == old(out[..off]) + AddressField(call, ssid, last) + old(out[off + 7..])
  {
    var callLen := StrLen(call);
    for i := 0 to 6
      invariant forall j :: 0 <= j < out.Length ==>
        out[j] == if off <= j < off + i then EncodedChar(CallsignByte(call, j - off)) else old(out[j])
    {
      out[off + i] := if i < callLen then call[i] << 1 else SPACE << 1;
    }
    out[off + 6] := (ssid << 1) | SSID_RESERVED | (if last then 1 else 0);
    assert out[..] == old(out[..off]) + AddressField(call, ssid, last) + old(out[off + 7..]);
  }
}
