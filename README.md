# rustic_io datatypes: VarInt/VarLong and Position, in Dafny

This project models the two binary codecs in the datatypes module of
`rustic_io` and proves their properties. Both codecs belong to the Minecraft
Java Edition protocol.

- **VarInt / VarLong** (`var.rs`) are the protocol's variable-length integers.
  The two's-complement bit pattern of an i32 or i64 is written seven bits at
  a time, least significant group first. The high bit of each byte (0x80)
  says that another byte follows.
  - The decoder (`try_from_ctx`) is modelled as the method
    `VarCodec.ReadGroups` with its `loop`.
  - The encoder (`try_into_ctx`) is modelled as the method
    `VarCodec.WriteGroups` with its `while` loop, writing into an
    `array<byte>`.
  - Both are proved equal to the specification functions `Decode` and
    `Encode`. The format's properties are proved about those two functions.
- **Position** (`position.rs`) packs a block position (x, y, z) into one u64:
  - x goes in bits 63..38, z in bits 37..12 and y in bits 11..0;
  - `from_u64` sign-corrects each field.

  Both directions are pure functions. `to_u64` is modelled as written by
  `PositionCodec.ToU64`. Its z term, which is computed in i32, is
  `PositionCodec.ZTerm` (see Findings). A separate function gives the
  evidently intended packing, and the two are compared.

Files:
- `bits.dfy` (module `Bits`): powers of two, bitwise OR on naturals, and
  the division facts the codecs share.
- `var.dfy` (module `VarCodec`): the VarInt/VarLong codec.
- `position.dfy` (module `PositionCodec`): the Position codec.

How Rust's fixed-width integers are modelled:
- Integers are unbounded in Dafny, so Rust's widths are written out. An i32
  is an int in [-2^31, 2^31). A u32 or u64 bit pattern is a nat below 2^32 or
  2^64. A byte is an int in [0, 256).
- `v & (2^k - 1)` is `v % 2^k`, and `>>= 7` is division by 128.
- An i32 shift that overflows keeps the low 32 bits (`WrapI32`).
- `i32 as u64` copies the sign bit over bits 63..32 (`I32AsU64`).
- `|` is `Bits.Or`.

In `from_u64` (position.rs:14, 18 and 22), `2 << 25-1` and `2 << 11-1`
parse as `2 << 24` = 2^25 and `2 << 10` = 2^11, because `-` binds tighter
than `<<`. These are the correct midpoints, and `PositionCodec.SignExtend26`
and `PositionCodec.SignExtend12` follow them. The defect of this codec is in
`to_u64` (see Findings).

## Model

| member | source | states |
|---|---|---|
| VarCodec.ReadGroups | rustic_io/src/datatypes/var.rs:14-39 | The decoding loop returns exactly `Decode(src, w)`: the accumulated value and the count of bytes read, TooBig, or BadOffset. Its loop invariant keeps the value equal to the truncated payloads read so far. |
| VarCodec.ReadVarInt | rustic_io/src/datatypes/var.rs:14-39 | `VarInt::try_from_ctx` returns `VarIntFrom(src)`: the 32-bit pattern decoded and read back as an i32, with the byte count. |
| VarCodec.ReadVarLong | rustic_io/src/datatypes/var.rs:74-98 | `VarLong::try_from_ctx` returns `VarLongFrom(src)`: the 64-bit pattern decoded and read back as an i64, with the byte count. |
| VarCodec.WriteGroups | rustic_io/src/datatypes/var.rs:46-64 | The encoding loop, in two cases. If the output holds `Encode(u)`, it writes those bytes at the front, leaves the rest of the buffer untouched and returns their count. Otherwise it writes the prefix that fits and fails with BadOffset at the buffer's length. |
| VarCodec.WriteVarInt | rustic_io/src/datatypes/var.rs:46-64 | `VarInt::try_into_ctx` does that for the u32 reinterpretation of the value. |
| VarCodec.WriteVarLong | rustic_io/src/datatypes/var.rs:105-124 | `VarLong::try_into_ctx` does that for the u64 reinterpretation of the value. |
| VarCodec.AsUnsigned32 | rustic_io/src/datatypes/var.rs:47-50 | The u32 with the bits of an i32: below 2^32, the same low 31 bits, and the top bit set exactly when the value is negative. |
| VarCodec.AsUnsigned64 | rustic_io/src/datatypes/var.rs:106-109 | The u64 with the bits of an i64: below 2^64, the same low 63 bits, and the top bit set exactly when the value is negative. |
| VarCodec.SignedUnsigned32 | rustic_io/src/datatypes/var.rs:47-50 | Reinterpreting i32 as u32 and u32 as i32 are inverse to each other, in both directions. |
| VarCodec.SignedUnsigned64 | rustic_io/src/datatypes/var.rs:106-109 | The same for i64 and u64. |
| VarCodec.Decode | rustic_io/src/datatypes/var.rs:14-39 | What the decoding loop returns. On success, the count is between 1 and 5 or 10 and within the input, the last byte counted has the continuation bit clear, and the value fits the width. BadOffset happens only at the input's length, before 5 or 10 bytes. TooBig happens only once 5 or 10 bytes are present, and it carries the input's length. |
| VarCodec.Encode | rustic_io/src/datatypes/var.rs:46-64 | The bytes the encoding loop writes. There is at least one byte. The first carries the low seven bits of the pattern and has the continuation bit exactly when higher bits remain. |
| VarCodec.FirstStop | rustic_io/src/datatypes/var.rs:19-27 | The index where decoding stops: every earlier byte has the continuation bit, and the byte there, if any, does not. |
| VarCodec.EncodeShape | rustic_io/src/datatypes/var.rs:54-62 | An encoding has at least one byte. Every byte but the last has 0x80 set, and the last is below 0x80. |
| VarCodec.EncodeSegments | rustic_io/src/datatypes/var.rs:54-62 | The low seven bits of byte i are bits 7i..7i+6 of the encoded value. |
| VarCodec.EncodeGroups | rustic_io/src/datatypes/var.rs:54-62 | The payloads of an encoding, read as base-128 digits, are the encoded value. |
| VarCodec.EncodeLengthMinimal | rustic_io/src/datatypes/var.rs:54 | An encoding fits in k ≥ 1 bytes exactly when the value is below 128^k, so its length is the least such k. |
| VarCodec.EncodeLengthBounds | rustic_io/src/datatypes/var.rs:54-64 | A w-bit pattern encodes in 1 to 5 bytes (w = 32) or 1 to 10 bytes (w = 64). |
| VarCodec.VarIntLength | rustic_io/src/datatypes/var.rs:46-64 | A VarInt takes 1 to 5 bytes, and a negative one always takes 5. A non-negative one below 2^(7k) takes at most k. |
| VarCodec.VarLongLength | rustic_io/src/datatypes/var.rs:105-124 | A VarLong takes 1 to 10 bytes, and a negative one always takes 10. A non-negative one below 2^(7k) takes at most k. |
| VarCodec.GroupsAppend | rustic_io/src/datatypes/var.rs:23 | Appending a byte adds its payload shifted left by 7 times the number of earlier bytes. |
| VarCodec.AccumulateStep | rustic_io/src/datatypes/var.rs:23 | One step of `value \|= (b & 0x7F) << pos`, in the truncated width, gives the truncated value of the longer prefix. |
| VarCodec.DecodeEncode | rustic_io/src/datatypes/var.rs:14-64 | Decoding an encoding followed by any bytes returns the encoded value and the encoding's length. |
| VarCodec.FirstStopOfEncoding | rustic_io/src/datatypes/var.rs:19-27 | Decoding an encoding followed by anything stops at the encoding's last byte. |
| VarCodec.VarIntRoundTrip | rustic_io/src/datatypes/var.rs:14-64 | For every i32: reading back the bytes written for it, followed by anything, gives the same VarInt and the written count. |
| VarCodec.VarLongRoundTrip | rustic_io/src/datatypes/var.rs:74-124 | For every i64: reading back the bytes written for it, followed by anything, gives the same VarLong and the written count. |
| VarCodec.WriteThenReadVarInt | rustic_io/src/datatypes/var.rs:176-181 | When writing a VarInt into a buffer succeeds with count n, reading that buffer gives the same VarInt and count n. |
| VarCodec.WriteThenReadVarLong | rustic_io/src/datatypes/var.rs:230-235 | When writing a VarLong into a buffer succeeds with count n, reading that buffer gives the same VarLong and count n. |
| VarCodec.DecodeOutcomes | rustic_io/src/datatypes/var.rs:19-39 | Success means a count n of at most 5 or 10 bytes, all but the n-th continuing and the n-th not, and a value within the width. TooBig occurs exactly when the first 5 or 10 bytes are present and all continue. BadOffset at the input's length occurs exactly when the input ends, still continuing, before that. |
| VarCodec.DecodeReadsOnlyPrefix | rustic_io/src/datatypes/var.rs:21-27 | A successful decode gives the same answer on the bytes it read followed by anything else, so it never looks past the terminating byte. |
| VarCodec.TooBigIgnoresRest | rustic_io/src/datatypes/var.rs:29-36 | When the first 5 or 10 bytes all continue, the result is TooBig, whatever follows them. It carries their truncated value and the length of the whole input. |
| VarCodec.LastGroupTruncated | rustic_io/src/datatypes/var.rs:23 | In a maximal-length input, only the low 4 bits (VarInt) or the low 1 bit (VarLong) of the last byte reach the result. |
| VarCodec.OverlongZeroAccepted | rustic_io/src/datatypes/var.rs:19-39 | The decoder accepts non-minimal input. For any k below 5 or 10, k bytes 0x80 followed by 0x00 read as 0 with k + 1 bytes. |
| VarCodec.OverlongAccepted | rustic_io/src/datatypes/var.rs:19-39 | The shortest case: the VarInt [0x80, 0x00] reads as 0 with 2 bytes. |
| VarCodec.VarIntWriteVectors | rustic_io/src/datatypes/var.rs:162-171 | The bytes written for the non-negative rows of the VarInt write table. |
| VarCodec.VarIntWriteVectorsNegative | rustic_io/src/datatypes/var.rs:172-173 | The bytes written for -1 and -2^31: five bytes each, as in the table. |
| VarCodec.VarLongWriteVectors | rustic_io/src/datatypes/var.rs:217-224 | The bytes written for the non-negative rows of the VarLong write table. |
| VarCodec.VarLongWriteMinusOne | rustic_io/src/datatypes/var.rs:225 | The ten bytes written for the VarLong -1. |
| VarCodec.VarLongWriteMinInt | rustic_io/src/datatypes/var.rs:226 | The ten bytes written for the VarLong -2^31. |
| VarCodec.VarLongWriteMinLong | rustic_io/src/datatypes/var.rs:227 | The ten bytes written for the VarLong -2^63. |
| VarCodec.VarIntReadVectors | rustic_io/src/datatypes/var.rs:137-148 | Every row of the VarInt read table decodes to its value, consuming all of its bytes. |
| VarCodec.VarLongReadVectors | rustic_io/src/datatypes/var.rs:190-201 | Every row of the VarLong read table decodes to its value, consuming all of its bytes. |
| PositionCodec.SignExtend26 | rustic_io/src/datatypes/position.rs:14-16 | The corrected 26-bit field lies in [-2^25, 2^25) and has the field as its low 26 bits. |
| PositionCodec.SignExtend12 | rustic_io/src/datatypes/position.rs:18-20 | The corrected 12-bit field lies in [-2^11, 2^11) and has the field as its low 12 bits. |
| PositionCodec.FromU64 | rustic_io/src/datatypes/position.rs:9-28 | `from_u64` is total and every coordinate of its result fits its field. The low bits of x, y and z are bits 63..38, 11..0 and 37..12 of the input. |
| PositionCodec.FromU64Fields | rustic_io/src/datatypes/position.rs:9-28 | Decoding the u64 with fields a, b, c sign-corrects each field separately. |
| PositionCodec.FieldsDetermine | rustic_io/src/datatypes/position.rs:33 | Two u64s built from three fields are equal exactly when their fields are equal. |
| PositionCodec.ZTerm | rustic_io/src/datatypes/position.rs:33 | The z term, shifted in i32 and then cast to u64, is z's low 20 bits moved up by 12. When bit 19 of the masked z is set, bits 63..32 are ones as well. |
| PositionCodec.ToU64 | rustic_io/src/datatypes/position.rs:30-36 | `to_u64` as written, field by field. Normally the fields are x mod 2^26, z mod 2^20 and y mod 2^12. When bit 19 of the masked z is set, the x field is all ones and bits 20..25 of the z field are set. |
| PositionCodec.FromToU64 | rustic_io/src/datatypes/position.rs:9-36 | What `from_u64(to_u64(p))` gives for every p. y comes back sign-corrected. x comes back sign-corrected, or as -1 when z's bit 19 leaks. z comes back as its low 20 bits read as a signed 20-bit number. |
| PositionCodec.RoundTripAsWritten | rustic_io/src/datatypes/position.rs:44-60 | For every position that fits, `from_u64(to_u64(p)) == p` holds exactly when 0 ≤ z < 2^19, or when -2^19 ≤ z < 0 and x == -1. |
| PositionCodec.PositiveTestRoundTrips | rustic_io/src/datatypes/position.rs:44-50 | The passing test: (111560, 333, 47) comes back unchanged. |
| PositionCodec.NegativeTestLosesX | rustic_io/src/datatypes/position.rs:53-60 | The failing test: (-1560, -333, -9696) comes back as (-1, -333, -9696). |
| PositionCodec.ToU64Truncates | rustic_io/src/datatypes/position.rs:33 | `to_u64` depends only on x mod 2^26, y mod 2^12 and z mod 2^20. Out-of-range coordinates are cut silently, and z loses six bits more than its field holds. |
| PositionCodec.ReencodeAsWrittenStable | rustic_io/src/datatypes/position.rs:9-36 | Re-encoding a decoded `to_u64` result gives the same u64, so information is lost only once. |
| PositionCodec.ToFromU64AsWritten | rustic_io/src/datatypes/position.rs:9-36 | `to_u64(from_u64(val)) == val` exactly when the z field is below 2^19, or when the x field is all ones and the z field is at least 0x3F80000. |
| PositionCodec.ToU64Intended | rustic_io/src/datatypes/position.rs:33 | The packing with the z term widened to u64 before the shift puts x mod 2^26, z mod 2^26 and y mod 2^12 side by side. |
| PositionCodec.RoundTripIntended | rustic_io/src/datatypes/position.rs:44-60 | With the intended packing, every position that fits comes back unchanged. |
| PositionCodec.DecodeEncodeIntended | rustic_io/src/datatypes/position.rs:9-28 | With the intended packing, every u64 decodes and re-encodes to itself. |
| PositionCodec.PackingsAgree | rustic_io/src/datatypes/position.rs:33 | For positions that fit, the written and the intended packings agree exactly in the cases where the written round trip succeeds. |
| PositionCodec.NegativeTestRoundTripsIntended | rustic_io/src/datatypes/position.rs:53-60 | With the intended packing, the failing test's position (-1560, -333, -9696) comes back unchanged. |

## Left out

- The `scroll` context machinery (`TryFromCtx`/`TryIntoCtx`, `gread_with`, `pwrite_with`, `Endian::Little`) is left out. Each single-byte read or write is a bounds check that fails with `BadOffset` at the first index past the end. Endianness does not matter for one byte.
- `scroll::Error` is reduced to the two variants the codec produces. `TooBig` carries the truncated unsigned bit pattern, not `value as usize`, which would sign-extend a negative i32 or i64. It also carries the input length.
- `anyhow`, `#[derive(Debug, PartialEq)]` and the tests' `vec!`/`pread`/`pwrite` entry points are left out. The test tables appear as lemmas about the model instead.
- Bytes are an integer subset type in [0, 256) rather than a bit-vector type. Every bit operation of the source is written out as arithmetic on naturals.
- The Position codec's `#[cfg(test)]` harness is left out. Its two tests are lemmas.

## Findings

| source | as written | input that shows it | evidently intended | confidence | as-written member | corrected member |
|---|---|---|---|---|---|---|
| rustic_io/src/datatypes/position.rs:33 | `((z & 0x3FFFFFF) << 12 as u64) as u64`: `as` binds tighter than `<<`, so the shift is done in i32. It drops bits 20..25 of the masked z, and whenever bit 19 of the masked z is set, it sign-extends ones over bits 63..32, which include the whole x field. | Position (-1560, -333, -9696) round-trips to (-1, -333, -9696). | Widen before shifting, `((z & 0x3FFFFFF) as u64) << 12`, as the x term does. Every position that fits then round-trips. | not executed | PositionCodec.NegativeTestLosesX | PositionCodec.RoundTripIntended |
