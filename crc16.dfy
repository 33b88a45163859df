/**
 * The frame check sequence of the packetizer: a bit-serial, MSB-first CRC on
 * a 16-bit register with initial value 0xFFFF, polynomial 0x1021 and a final
 * XOR with 0xFFFF (the parameter set catalogued as CRC-16/GENIBUS).
 */
module Crc16 {
  import opened Bytes

  const INIT: bv16 := 0xFFFF
  const POLY: bv16 := 0x1021
  const XOR_OUT: bv16 := 0xFFFF

  /** The register shifted left one place; bit 15 falls out. */
  function Doubled(crc: bv16): bv16 {
    crc << 1
  }

  /**
   * One clock of the register: shift left, feeding back the polynomial when
   * bit 15 falls out. Since the polynomial has bit 0 set, the new bit 0 is
   * the bit that fell out.
   */
  function ShiftBit(crc: bv16): (r: bv16)
    ensures r & 1 == (if crc & 0x8000 != 0 then 1 else 0)
  {
    assert Doubled(crc) & 1 == 0;
    if crc & 0x8000 != 0 then Doubled(crc) ^ POLY else Doubled(crc)
  }

  /** `n` clocks of the register. */
  function Shifts(crc: bv16, n: nat): bv16 {
    if n == 0 then crc else ShiftBit(Shifts(crc, n - 1))
  }

  /** The register after one message byte: the byte enters the top 8 bits, then 8 clocks. */
  function UpdateByte(crc: bv16, b: bv8): bv16 {
    Shifts(crc ^ ((b as bv16) << 8), 8)
  }

  /** The register after feeding `data`, first byte first, into a register holding `crc`. */
  function RegisterFrom(crc: bv16, data: seq<bv8>): (r: bv16)
    decreases |data|
  {
    if data == [] then crc
    else
      RegisterFrom(UpdateByte(crc, data[0]), data[1..])
  }

  /** The checksum `calculate_crc` returns for `data`. */
  function Crc(data: seq<bv8>): (r: bv16)
    ensures data == [] ==> r == 0x0000
  {
    RegisterFrom(INIT, data) ^ XOR_OUT
  }

  /** Feeding `a + b` is feeding `a`, then `b`. */
  lemma {:induction false} RegisterFromAppend(crc: bv16, a: seq<bv8>, b: seq<bv8>)
    ensures RegisterFrom(crc, a + b) == RegisterFrom(RegisterFrom(crc, a), b)
    decreases |a|
  {
    if a == [] {
      assert a + b == b;
    } else {
      assert (a + b)[1..] == a[1..] + b;
      RegisterFromAppend(UpdateByte(crc, a[0]), a[1..], b);
    }
  }

  /** Registers computed piecewise over three consecutive parts of a message compose. */
  lemma RegisterFromChain(c0: bv16, c1: bv16, c2: bv16, c3: bv16, a: seq<bv8>, b: seq<bv8>, c: seq<bv8>)
    requires RegisterFrom(c0, a) == c1 && RegisterFrom(c1, b) == c2 && RegisterFrom(c2, c) == c3
    ensures RegisterFrom(c0, a + b + c) == c3
  {
    RegisterFromAppend(c0, a, b);
    RegisterFromAppend(c0, a + b, c);
  }

  /** `UpdateByte` written out as its eight clocks. */
  lemma UpdateByteUnrolled(crc: bv16, b: bv8)
    ensures UpdateByte(crc, b) == var x := crc ^ ((b as bv16) << 8);
      ShiftBit(ShiftBit(ShiftBit(ShiftBit(ShiftBit(ShiftBit(ShiftBit(ShiftBit(x))))))))
  {
    var x := crc ^ ((b as bv16) << 8);
    assert Shifts(x, 1) == ShiftBit(x);
    assert Shifts(x, 2) == ShiftBit(Shifts(x, 1));
    assert Shifts(x, 3) == ShiftBit(Shifts(x, 2));
    assert Shifts(x, 4) == ShiftBit(Shifts(x, 3));
    assert Shifts(x, 5) == ShiftBit(Shifts(x, 4));
    assert Shifts(x, 6) == ShiftBit(Shifts(x, 5));
    assert Shifts(x, 7) == ShiftBit(Shifts(x, 6));
  }

  /**
   * The published check value of this parameter set: the CRC of ASCII
   * "123456789" is 0xD64E. (Without the final XOR the register holds 0x29B1,
   * the check value of CRC-16/CCITT-FALSE.)
   */
  lemma CheckValue()
    ensures RegisterFrom(INIT, [0x31, 0x32, 0x33, 0x34, 0x35, 0x36, 0x37, 0x38, 0x39]) == 0x29B1
    ensures Crc([0x31, 0x32, 0x33, 0x34, 0x35, 0x36, 0x37, 0x38, 0x39]) == 0xD64E
  {
    UpdateByteUnrolled(0xFFFF, 0x31);
    UpdateByteUnrolled(0xC782, 0x32);
    UpdateByteUnrolled(0x3DBA, 0x33);
    UpdateByteUnrolled(0x5BCE, 0x34);
    UpdateByteUnrolled(0x5349, 0x35);
    UpdateByteUnrolled(0x4560, 0x36);
    UpdateByteUnrolled(0x2EF4, 0x37);
    UpdateByteUnrolled(0x7718, 0x38);
    UpdateByteUnrolled(0xA12B, 0x39);
    var s: seq<bv8> := [0x31, 0x32, 0x33, 0x34, 0x35, 0x36, 0x37, 0x38, 0x39];
    assert RegisterFrom(0xA12B, s[8..]) == 0x29B1;
    assert RegisterFrom(0x7718, s[7..]) == 0x29B1;
    assert RegisterFrom(0x2EF4, s[6..]) == 0x29B1;
    assert RegisterFrom(0x4560, s[5..]) == 0x29B1;
    assert RegisterFrom(0x5349, s[4..]) == 0x29B1;
    assert RegisterFrom(0x5BCE, s[3..]) == 0x29B1;
    assert RegisterFrom(0x3DBA, s[2..]) == 0x29B1;
    assert RegisterFrom(0xC782, s[1..]) == 0x29B1;
  }

  lemma XorCancels(x: bv16, y: bv16, p: bv16)
    requires x ^ p == y ^ p
    ensures x == y
  {
    assert x == (x ^ p) ^ p;
    assert y == (y ^ p) ^ p;
  }

  lemma FeedbackCancels(a: bv16, b: bv16)
    requires ShiftBit(a) == ShiftBit(b) && a & 0x8000 != 0 && b & 0x8000 != 0
    ensures Doubled(a) == Doubled(b)
  {
    XorCancels(Doubled(a), Doubled(b), POLY);
  }

  lemma SameShiftSameWord(a: bv16, b: bv16)
    requires Doubled(a) == Doubled(b) && (a & 0x8000 != 0) == (b & 0x8000 != 0)
    ensures a == b
  {
  }

  /** One clock is injective on the register (the polynomial has its bit 0 set). */
  lemma ShiftBitInjective(a: bv16, b: bv16)
    requires ShiftBit(a) == ShiftBit(b)
    ensures a == b
  {
    assert (a & 0x8000 != 0) == (b & 0x8000 != 0);
    if a & 0x8000 != 0 {
      FeedbackCancels(a, b);
    }
    SameShiftSameWord(a, b);
  }

  lemma {:induction false} ShiftsInjective(a: bv16, b: bv16, n: nat)
    requires Shifts(a, n) == Shifts(b, n)
    ensures a == b
  {
    if n > 0 {
      ShiftBitInjective(Shifts(a, n - 1), Shifts(b, n - 1));
      ShiftsInjective(a, b, n - 1);
    }
  }

  /** Two different registers stay different whatever bytes follow. */
  lemma {:induction false} RegisterFromInjective(r1: bv16, r2: bv16, data: seq<bv8>)
    requires RegisterFrom(r1, data) == RegisterFrom(r2, data)
    ensures r1 == r2
    decreases |data|
  {
    if data != [] {
      RegisterFromInjective(UpdateByte(r1, data[0]), UpdateByte(r2, data[0]), data[1..]);
      ShiftsInjective(r1 ^ ((data[0] as bv16) << 8), r2 ^ ((data[0] as bv16) << 8), 8);
    }
  }

  /** Different bytes entering the same register give different registers. */
  lemma UpdateByteInjective(r: bv16, b: bv8, c: bv8)
    requires UpdateByte(r, b) == UpdateByte(r, c)
    ensures b == c
  {
    ShiftsInjective(r ^ ((b as bv16) << 8), r ^ ((c as bv16) << 8), 8);
    assert (b as bv16) << 8 == (c as bv16) << 8;
  }

  /**
   * The checksum detects every error confined to one byte: changing byte `i`
   * of any message changes its CRC.
   */
  lemma DetectsSingleByteError(data: seq<bv8>, i: nat, b: bv8)
    requires i < |data| && b != data[i]
    ensures Crc(data[i := b]) != Crc(data)
  {
    var p, q := data[..i], data[i + 1..];
    assert data == (p + [data[i]]) + q;
    assert data[i := b] == (p + [b]) + q;
    var r := RegisterFrom(INIT, p);
    RegisterFromAppend(INIT, p + [data[i]], q);
    RegisterFromAppend(INIT, p, [data[i]]);
    RegisterFromAppend(INIT, p + [b], q);
    RegisterFromAppend(INIT, p, [b]);
    assert RegisterFrom(r, [b]) == UpdateByte(r, b);
    assert RegisterFrom(r, [data[i]]) == UpdateByte(r, data[i]);
    if RegisterFrom(INIT, data[i := b]) == RegisterFrom(INIT, data) {
      RegisterFromInjective(UpdateByte(r, b), UpdateByte(r, data[i]), q);
      UpdateByteInjective(r, b, data[i]);
    }
  }

  /**
   * `calculate_crc(data, length)`: the register loop over the first `length`
   * bytes of the buffer (none when `length` is negative).
   */
  method CalculateCrc(data: array<bv8>, length: int) returns (crc: bv16)
    requires length <= data.Length
    ensures crc == Crc(data[..Covered(length)])
  {
    crc := INIT;
    var i := 0;
    while i < length
      invariant 0 <= i <= Covered(length)
      invariant crc == RegisterFrom(INIT, data[..i])
    {
      crc := crc ^ ((data[i] as bv16) << 8);
      ghost var entered := crc;
      var j := 0;
      while j < 8
        invariant 0 <= j <= 8
        invariant crc == Shifts(entered, j)
      {
        if crc & 0x8000 != 0 {
          crc := (crc << 1) ^ POLY;
        } else {
          crc := crc << 1;
        }
        j := j + 1;
      }
      RegisterFromAppend(INIT, data[..i], [data[i]]);
      assert data[..i + 1] == data[..i] + [data[i]];
      i := i + 1;
    }
    crc := crc ^ XOR_OUT;
  }
}
