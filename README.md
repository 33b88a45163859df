# Satellite packetizer — a verified Dafny model

The packetizer turns a binary input into radio packets. It reads the input in chunks of at most
150 bytes and runs each chunk through three stages:

1. **AX.25 framing.** The chunk becomes an AX.25 UI frame: destination address, source address,
   control byte 0x03, PID 0xF0, the payload, and a 16-bit checksum of everything before it, low
   byte first.
2. **FX.25 forward error correction.** The frame, at most 223 bytes, goes after an 8-byte
   correlation tag. It is zero-padded to 223 bytes and followed by 32 Reed-Solomon (255,223)
   parity bytes, giving 263 bytes in all.
3. **KISS output.** The FX.25 frame is written as FEND 0xC0, command 0x00, the frame with every
   0xC0 and 0xDB byte escaped, and a closing FEND.

A counter records the packets written.

The model follows the C code's own shape:

- The checksum is a method with the code's nested register loops.
- The address encoder, frame builder and FX.25 encoder are methods that fill caller arrays in
  place.
- The KISS writer is a method that appends to an output stream byte by byte.
- The main loop is a method over the chunks the input delivered.
- The body of `main`'s loop (`SendChunk`) and the body of the escaping loop (`PutEscaped`) are
  methods of their own, called once per pass.

Each method is proved against a pure function of its inputs. The properties the code relies on
are proved about those functions:

- The layout of every byte.
- The checksum's check value and its detection of single-byte errors.
- The KISS escaping round trip.
- A receiver recovering the addresses and the chunk from a packet.
- The unreachability of the loop's two skip branches.

Modules:

| file | module | C code |
|---|---|---|
| `bytes.dfy` | `Bytes` | C strings, `memcpy`, the output `FILE*` |
| `crc16.dfy` | `Crc16` | `calculate_crc` |
| `ax25_address.dfy` | `Ax25Address` | `encode_address` |
| `ax25_frame.dfy` | `Ax25Frame` | `ax25_generate_ui_frame` |
| `fx25.dfy` | `Fx25` | `fx25_init`, `fx25_encode_frame`, `fx25_cleanup` |
| `kiss.dfy` | `Kiss` | `write_kiss_frame` |
| `packetizer.dfy` | `Packetizer` | the processing loop and the life cycle of `main` |

The repository holds two byte-identical copies of the program, `satellite_packetizer.c` and
`Packetization/satellite_packetizer.c`. The line numbers below hold for both.

Where the code and its own comments disagree, the model follows the code:

- **The checksum has a final XOR with 0xFFFF** (line 119). With init 0xFFFF, polynomial 0x1021,
  MSB-first processing and that final XOR, it is the parameter set catalogued as CRC-16/GENIBUS.
  Its check value is 0xD64E; `Crc16.CheckValue` proves it, and also that the register before the
  XOR holds 0x29B1, the CRC-16/CCITT-FALSE value. The doc comment at line 105 calls it "the CCITT
  CRC-16". It is also not the bit-reflected FCS that section 3.8 of AX.25 v2.2 prescribes.
- **The frame builder never returns 0.** Its doc comment (line 193) promises "0 on error", but the
  body has no length check and no error path: it always returns `18 + payload_len`. That is two
  7-byte addresses, control, PID and two checksum bytes, the same overhead as the sum in the
  comment at line 63 ("14 addr + 2 ctrl/pid + payload + 2 FCS"). The model states the buffer size
  as a precondition and does not invent an error path.

Two more facts about the code that the model keeps:

- **The SSID is not masked to 4 bits** (line 101). `(ssid << 1)` is truncated to 8 bits, so an
  SSID above 15 spills into the reserved bits. The bit-field facts are stated for SSIDs up to 15.
- **A negative length in `calculate_crc` or `write_kiss_frame` covers no bytes**, because the
  C loop simply does not run. The model clamps the length with `Bytes.Covered`.

## Model

| member | source | states |
|---|---|---|
| Bytes.Covered | satellite_packetizer.c:109 | the byte count a C `int` length stands for: the length clamped at 0 (the same guard is at line 237); the loop invariants of `Crc16.CalculateCrc` and `Kiss.WriteKissFrame` show their loops visit exactly that many bytes |
| Bytes.Lo | satellite_packetizer.c:214 | the first checksum byte written is the low byte, the checksum modulo 256 |
| Bytes.Hi | satellite_packetizer.c:215 | the second checksum byte written is the high byte, the checksum divided by 256 |
| Bytes.StrLen | satellite_packetizer.c:95 | `strlen`: the length is within the buffer, no NUL comes before it, and a NUL sits at it when the buffer is longer |
| Bytes.WriteBytes | satellite_packetizer.c:170 | `memcpy` into an array: the bytes at `off` become `src`; every other byte is unchanged |
| Bytes.WordFromBytes | satellite_packetizer.c:214-215 | the low and high bytes written for a 16-bit checksum determine it |
| Bytes.Spliced | satellite_packetizer.c:196-217 | writing at a cursor that advances left to right leaves the written bytes before the cursor and the caller's bytes after it |
| Bytes.OutputStream.constructor | satellite_packetizer.c:291 | `fopen` in mode "wb": the output starts empty, whatever the file held before |
| Bytes.OutputStream.PutByte | satellite_packetizer.c:232 | `fputc`: the stream is the old stream with one byte appended |
| Crc16.ShiftBit | Packetization/satellite_packetizer.c:112-116 | one clock of the inner loop: shift left, XOR 0x1021 when bit 15 was set; the new bit 0 is the bit that fell out of position 15 (this is what makes the clock injective) |
| Crc16.Shifts | Packetization/satellite_packetizer.c:111-117 | the inner `for (j = 0; j < 8; j++)` loop run `n` times: `n` clocks of the register; `Crc16.CalculateCrc`'s inner invariant is stated with it and `Crc16.ShiftsInjective` shows it loses nothing |
| Crc16.UpdateByte | Packetization/satellite_packetizer.c:110-117 | one pass of the outer loop: the byte XORed into bits 15-8, then eight clocks; `Crc16.UpdateByteInjective` shows it loses no information about the byte |
| Crc16.RegisterFrom | Packetization/satellite_packetizer.c:108-118 | the register after the bytes, first byte first, from a given start value; `Crc16.RegisterFromAppend` shows it can be computed piecewise, which is the outer loop's invariant in `Crc16.CalculateCrc` |
| Crc16.Crc | Packetization/satellite_packetizer.c:107-120 | the checksum of the empty message is 0x0000, since the final XOR undoes the initial value |
| Crc16.CalculateCrc | Packetization/satellite_packetizer.c:107-120 | the nested register loops return the checksum of the first `length` bytes; no bytes are covered for a negative length |
| Crc16.CheckValue | Packetization/satellite_packetizer.c:107-120 | the CRC of ASCII "123456789" is 0xD64E; the register before the final XOR is 0x29B1 |
| Crc16.RegisterFromAppend | Packetization/satellite_packetizer.c:109-118 | feeding `a + b` to the register equals feeding `a`, then `b` |
| Crc16.RegisterFromChain | Packetization/satellite_packetizer.c:109-118 | register values computed over three consecutive parts of a message compose |
| Crc16.ShiftBitInjective | Packetization/satellite_packetizer.c:111-117 | one clock of the register is injective on the 16-bit register |
| Crc16.ShiftsInjective | Packetization/satellite_packetizer.c:111-117 | so is any number of clocks |
| Crc16.RegisterFromInjective | Packetization/satellite_packetizer.c:109-118 | two different registers stay different after the same bytes |
| Crc16.UpdateByteInjective | Packetization/satellite_packetizer.c:110-117 | from the same register, two different bytes give different registers |
| Crc16.DetectsSingleByteError | Packetization/satellite_packetizer.c:107-120 | changing any one byte of a message changes its checksum |
| Ax25Address.EncodedChar | Packetization/satellite_packetizer.c:98 | a shifted callsign character is the character times 2 modulo 256 |
| Ax25Address.SsidByte | Packetization/satellite_packetizer.c:101 | bit 0 is set exactly for the last address, and bits 5 and 6 are always set; for an SSID up to 15, bits 1-4 hold the SSID and bit 7 is clear |
| Ax25Address.CallsignByte | Packetization/satellite_packetizer.c:98 | the character chosen for position `i`: `call[i]` before the NUL, a space after it; `Ax25Address.CallsignBytes` gives the bytes it leads to |
| Ax25Address.AddressField | Packetization/satellite_packetizer.c:94-102 | the field has 7 bytes: six shifted callsign characters (space after the NUL), then the SSID byte |
| Ax25Address.CallsignBytes | Packetization/satellite_packetizer.c:97-99 | byte `i` is `(call[i] * 2) mod 256` for `i` before the NUL and below 6, and 0x40 at every padding position |
| Ax25Address.CallsignTruncated | Packetization/satellite_packetizer.c:95-99 | characters past the sixth, and anything after the NUL, do not affect the field |
| Ax25Address.StrLenOfPrefix | Packetization/satellite_packetizer.c:95 | a C string cut at or before its NUL has the cut as its length |
| Ax25Address.TrimTrailingSpaces | Packetization/satellite_packetizer.c:98 | removes exactly the trailing spaces a receiver strips from the padded callsign |
| Ax25Address.AddressRoundTrip | Packetization/satellite_packetizer.c:94-102 | for a callsign of up to six printable characters other than space (0x21-0x7E) and an SSID up to 15, decoding the field gives back the callsign, the SSID and the last-address flag |
| Ax25Address.EncodeAddress | Packetization/satellite_packetizer.c:94-102 | writes the address field at `out[off..off+7]` and no other byte |
| Ax25Frame.FrameBody | Packetization/satellite_packetizer.c:198-211 | the checked part of a frame: destination field (not last), source field (last), 0x03, 0xF0, then the payload verbatim, `16 + n` bytes |
| Ax25Frame.UiFrame | Packetization/satellite_packetizer.c:195-217 | the frame has `18 + n` bytes: the checked part, then the low and high byte of its checksum |
| Ax25Frame.ParseBuiltFrame | Packetization/satellite_packetizer.c:195-217 | for well-formed addresses, a receiver that checks flags, control, PID and checksum accepts every built frame and recovers both addresses and the payload |
| Ax25Frame.CorruptedFrameRejected | Packetization/satellite_packetizer.c:212-215 | changing one byte of a frame's checked part makes that receiver reject the frame |
| Ax25Frame.FrameAssembled | Packetization/satellite_packetizer.c:198-217 | the addresses, control, PID, payload and the two checksum bytes, written one after another, are the UI frame |
| Ax25Frame.HelloRegister | Packetization/satellite_packetizer.c:107-120 | the register after the 21 checked bytes of the "HELLO" example frame is 0xA0A8 |
| Ax25Frame.HelloFrame | Packetization/satellite_packetizer.c:195-217 | the frame for "HELLO" from N0CALL-1 to CQ-0 is the 21 listed bytes followed by the checksum bytes 0x57 0x5F |
| Ax25Frame.GenerateUiFrame | Packetization/satellite_packetizer.c:195-218 | always returns `18 + payload_len` (never 0); the buffer's first bytes are the UI frame and the rest is unchanged |
| Fx25.DataBlock | Packetization/satellite_packetizer.c:173-175 | the data block has 223 bytes: the frame followed by zeros |
| Fx25.Fx25Frame | Packetization/satellite_packetizer.c:169-183 | the FX.25 frame has 263 bytes: the tag CC 8F 8A E4 85 E2 98 01, the frame, zeros up to byte 230, then the parity of the 223-byte block |
| Fx25.Fx25FrameRecovered | satellite_packetizer.c:163-184 | a receiver that checks tag and parity accepts every encoded frame, and the frame is the first bytes of its data block |
| Fx25.Fx25FrameUnique | satellite_packetizer.c:163-184 | conversely, every 263 bytes a receiver accepts whose data block is the frame followed by zeros are exactly the encoding of that frame |
| Fx25.Encoder.constructor | satellite_packetizer.c:131-141 | a new encoder is live and holds the codec's parity |
| Fx25.Encoder.Cleanup | satellite_packetizer.c:147-154 | after cleanup the encoder is no longer live |
| Fx25.Encoder.EncodeFrame | satellite_packetizer.c:163-184 | a frame over 223 bytes gives 0 and leaves the output untouched; otherwise it gives 263, the output starts with the FX.25 frame (a function of the frame and the encoder alone, so the result is deterministic), and later bytes are untouched |
| Fx25.Init | satellite_packetizer.c:131-142 | null exactly when the codec could not be set up; otherwise a fresh, live encoder |
| Kiss.EscapeByte | satellite_packetizer.c:238-246 | the stand-in for one byte (DB DC for 0xC0, DB DD for 0xDB, the byte itself otherwise) contains no 0xC0 and unescapes to exactly that byte |
| Kiss.Escape | satellite_packetizer.c:237-247 | the escaped body (0xC0 as DB DC, 0xDB as DB DD, other bytes kept) is at least as long as the frame and at most twice as long |
| Kiss.PutEscaped | satellite_packetizer.c:238-246 | one pass of the escaping loop appends exactly the escape of one byte: DB DC for 0xC0, DB DD for 0xDB, the byte itself otherwise |
| Kiss.EscapeAppend | satellite_packetizer.c:237-247 | escaping works byte by byte: it distributes over concatenation |
| Kiss.EscapeLength | satellite_packetizer.c:237-247 | the escaped length is `n` plus the number of 0xC0 and 0xDB bytes |
| Kiss.EscapeWellEscaped | satellite_packetizer.c:235-246 | the escaped body has no 0xC0, and every 0xDB in it is followed by 0xDC or 0xDD |
| Kiss.UnescapeEscape | satellite_packetizer.c:235-246 | unescaping an escaped body gives back the original bytes |
| Kiss.EscapeUnescape | satellite_packetizer.c:235-246 | whatever unescapes successfully is the escape of what it unescapes to |
| Kiss.WellEscapedUnescapes | satellite_packetizer.c:235-246 | every well-escaped sequence (no 0xC0, each 0xDB followed by 0xDC or 0xDD) unescapes |
| Kiss.EscapeOnto | satellite_packetizer.c:235-246 | every well-escaped sequence is the escape of what it unescapes to; with `Kiss.EscapeWellEscaped` and `Kiss.UnescapeEscape`, escaping is a bijection onto the well-escaped sequences |
| Kiss.KissFrame | satellite_packetizer.c:231-249 | a KISS frame is `3 + n + specials` bytes long, starts with C0 00, ends with C0, and has no C0 in between |
| Kiss.KissRoundTrip | satellite_packetizer.c:231-249 | decoding a KISS frame gives back the data command and the frame |
| Kiss.EscapedOneMore | satellite_packetizer.c:237-247 | one more pass of the escaping loop extends the stream by the escape of one more byte |
| Kiss.KissAssembled | satellite_packetizer.c:232-248 | the opening FEND and command byte, the escaped body and the closing FEND, written in turn, are the KISS frame |
| Kiss.WriteKissFrame | satellite_packetizer.c:231-249 | the stream grows by exactly the KISS frame of the first `length` bytes |
| Packetizer.FrameFitsBlock | satellite_packetizer.c:62-63 | a chunk of at most 150 bytes gives a frame of at most 168 ≤ 223 bytes |
| Packetizer.Packet | satellite_packetizer.c:310-325 | the bytes one pass writes: the KISS frame of the FX.25 frame of the chunk's UI frame, between 266 and 529 bytes long |
| Packetizer.Packets | satellite_packetizer.c:308-327 | one packet per chunk, in order, each the KISS frame of the FX.25 frame of the chunk's UI frame |
| Packetizer.FlattenStep | satellite_packetizer.c:325 | writing packet `k` after the first `k` packets gives the first `k + 1` |
| Packetizer.PacketDecodes | satellite_packetizer.c:308-327 | for well-formed addresses, from each packet a receiver recovers the data command, a valid FX.25 frame and, inside it, the two addresses and the chunk |
| Packetizer.ReadChunk | satellite_packetizer.c:308 | `fread` places the chunk at the start of the payload buffer, reports its length and leaves the rest of the buffer as it was |
| Packetizer.SendChunk | satellite_packetizer.c:310-325 | neither skip branch is taken for a chunk of 1 to 150 bytes; the stream grows by exactly the chunk's packet |
| Packetizer.ProcessChunks | satellite_packetizer.c:299-328 | neither skip branch is ever taken; the output is all packets in chunk order, and `packet_count` equals the number of chunks |
| Packetizer.Packetize | satellite_packetizer.c:277-340 | status 1 and no output stream when the codec or either file fails; otherwise status 0, a count equal to the number of chunks, and a freshly created output holding exactly every packet in chunk order |

## Left out

- Reed-Solomon arithmetic (`init_rs_char`, `encode_rs_char`, `free_rs_char`, lines 136, 150 and 178) belongs to a foreign library. The parity is an arbitrary function of the 223-byte block that yields 32 bytes. Nothing is claimed about error correction.
- File I/O (`fopen`, `fread`, `fputc`, `fclose`) is not modelled as such. The chunks the input delivers are a parameter, whether each file opens is a boolean parameter, and the output file is a byte sequence. Write errors are not modelled, since the code ignores them.
- Packetizer.ProcessChunks and Packetizer.Packetize: `packet_count` (lines 304 and 327) is a C `int`, modelled as an unbounded integer. Past INT_MAX chunks the C increment overflows, which is undefined behaviour; the model's `packetCount == |chunks|` does not capture that 32-bit limit.
- Packetizer.ValidChunks: the chunks are required to hold 1 to 150 bytes each. This is what `fread` with `MAX_PAYLOAD` delivers; short reads in mid-file are allowed.
- Argument parsing (`sscanf` with `%7[^-]-%hhu`, lines 264-267) is not modelled: the two addresses are parameters. The usage check at line 258 is left out too.
- The `printf`/`fprintf`/`perror` diagnostics are not modelled.
- `malloc`/`free` of `fx25_encoder_t` (lines 131-154) reduce to the encoder's `live` flag. The allocation failure is folded into `Init`'s "no codec" case.
- Aliasing between the frame and output buffers is excluded by `frame != out` and `payload != buf` preconditions. The C code never passes overlapping buffers.
- Packetizer.SendChunk: the two skip branches end in `continue` in the C loop. The model leaves that step out, because it proves both branches unreachable.
- Fx25.Fx25FrameRecovered: the FX.25 receiver checks only an error-free codeword; decoding with corrections is part of the library arithmetic left out above.
- Whether a packet's body ever needs KISS escaping is not decided, because it depends on the parity and checksum bytes.
