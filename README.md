# DTX header decoder

A Dafny model of the header decoder in `dtx2tga`. DTX is the texture resource
format of a legacy game engine. `Header::parse` reads the first 164 bytes of a DTX file
and reinterprets them as the `#[repr(C)] Header` record:

| field | offset | width | type |
|---|---|---|---|
| `m_res_type` | 0 | 4 | `u32` |
| `m_base_width` | 4 | 2 | `u16` |
| `m_base_height` | 6 | 2 | `u16` |
| `m_version` | 8 | 4 | `i32` |
| `m_n_mipmaps` | 12 | 2 | `u16` |
| `m_n_sections` | 14 | 2 | `u16` |
| `m_iflags` | 16 | 4 | `i32` |
| `m_user_flags` | 20 | 4 | `i32` |
| `extra` | 24 | 12 | union `[u8; 12]` / `[u32; 3]` |
| `m_command_string` | 36 | 128 | `[u8; 128]` |

The `Flags` enum names eleven single-bit masks over `m_iflags`.

Files:

- `bytes.dfy`
  - module `Bytes`: the machine integer types, little-endian reading (`LeValue`) and writing (`LeBytes`) of n-byte unsigned values, and two's complement for `i32`.
  - module `Wrappers`: `Option` and `Result`.
- `flags.dfy`, module `DtxFlags`: the `Flags` enum. It gives each variant's bit, its mask `1 << k`, and a bitwise AND over 32-bit words.
- `header.dfy`, module `DtxHeader`:
  - the `ExtraData` union, modelled as one 12-byte blob with a derived three-word view;
  - the `Header` record and its layout: the fields packed in declaration order, shown equal to what the `repr(C)` placement rule (round each offset up to the field's alignment) gives;
  - `Encode` (the in-memory image of a header), `Decode` (the `transmute`), `Parse` (`Header::parse`) and `New` (`Header::new`);
  - the round-trip, layout and example lemmas.

Byte order: `transmute` uses the host's byte order. This model fixes it to
little-endian, the usual host order and the order of the format's origin platform.
Every multi-byte field is read least significant byte first.

Nothing is validated. Any version (not only the expected -5), any dimensions, counts and flags are returned as read.
All 128 command-string bytes are kept verbatim, including those after a NUL.

## Model

| member | source | states |
|---|---|---|
| `Bytes.LeValue` | src/main.rs:106 | the number read from n bytes is below 256^n, so a 2-byte field fits a `u16` and a 4-byte field fits a `u32` |
| `Bytes.LeBytes` | src/main.rs:106 | writing a value as n bytes gives exactly n bytes |
| `Bytes.LeValueOfLeBytes` | src/main.rs:106 | every value below 256^n is read back from its n-byte little-endian image |
| `Bytes.LeBytesOfLeValue` | src/main.rs:106 | every byte pattern is restored from the number it is read as: the reinterpretation loses nothing |
| `Bytes.LeBytesInjective` | src/main.rs:106 | different values have different byte images |
| `Bytes.LeValueOfFourBytes` | src/main.rs:57 | a 4-byte word is b0 + 2^8 b1 + 2^16 b2 + 2^24 b3 (little-endian) |
| `Bytes.ZeroBytes` | src/main.rs:91-100 | zero bytes read as zero, and zero is written as zero bytes |
| `Bytes.FromI32` | src/main.rs:76 | an `i32` is held as the 32-bit word congruent to it modulo 2^32 (two's complement); non-negative values are held as themselves; reading the word as `i32` gives the value back |
| `Bytes.ToI32` | src/main.rs:76-81 | an `i32` field read from a 32-bit word is congruent to the word modulo 2^32 (two's complement), and is negative exactly when the word's top bit is set |
| `Bytes.FromToI32` | src/main.rs:80-81 | every 32-bit word is the image of exactly one `i32` |
| `DtxFlags.BitIndex` | src/main.rs:13-36 | each variant's shift k in `1 << k` is below 13 and is never 4 or 5; `FlagOfBit` and `FlagsDisjoint` show the shifts are distinct and cover every other bit below 13 |
| `DtxFlags.Mask` | src/main.rs:11-37 | every flag's discriminant is below 2^13 |
| `DtxFlags.FlagIsSingleBit` | src/main.rs:11-37 | each flag's mask has exactly one bit set, bit `BitIndex(f)` (the shift in `1 << k`) |
| `DtxFlags.FlagsDisjoint` | src/main.rs:11-37 | two different flags have different bits, different masks, and masks whose AND is 0 |
| `DtxFlags.FlagOfBit` | src/main.rs:11-37 | the variant found from a bit has that bit; no variant uses bits 4, 5 or any bit from 13 up, and every other bit below 13 is named |
| `DtxFlags.FlagOfBitIndex` | src/main.rs:11-37 | every variant is found again from its own bit, so the bit identifies the variant |
| `DtxFlags.Pow2SingleBit` | src/main.rs:13-36 | `1 << i` has bit k set exactly when k = i |
| `DtxFlags.AndPow2` | src/main.rs:80 | ANDing a word with `1 << i` yields `1 << i` when bit i is set and 0 otherwise |
| `DtxFlags.HasIsBitTest` | src/main.rs:80 | ANDing the `i32` flag word with a flag's mask isolates exactly that flag's bit of the two's-complement word |
| `DtxHeader.Offset` | src/main.rs:70-86 | every field, placed after the widths of the fields before it, ends inside the 164-byte record |
| `DtxHeader.OffsetTable` | src/main.rs:70-86 | the packed offsets are 0, 4, 6, 8, 12, 14, 16, 20, 24, 36 and the packed size is 164 |
| `DtxHeader.Width` | src/main.rs:72-86 | `size_of` each field's type (4 for `u32`/`i32`, 2 for `u16`, 12 for the union, 128 for the command string); `FieldBytes`, `LayoutTable` and `NaturallyAligned` state what the widths give |
| `DtxHeader.Align` | src/main.rs:54-58 | `align_of` each field's type is positive and at most the record's alignment 4 (the union aligns as its `[u32; 3]` view) |
| `DtxHeader.LayoutTable` | src/main.rs:72-86 | each field's offset in declaration order: `m_res_type` 0, `m_base_width` 4, `m_base_height` 6, `m_version` 8, `m_n_mipmaps` 12, `m_n_sections` 14, `m_iflags` 16, `m_user_flags` 20, `extra` 24, `m_command_string` 36; the size is 164 |
| `DtxHeader.NoPadding` | src/main.rs:70-86 | the first field starts at 0; each field starts where the previous one ends; the last ends at 164 |
| `DtxHeader.NaturallyAligned` | src/main.rs:54-58 | every field (the union counting as 4-aligned) sits, when packed, at a multiple of its alignment, each field's size is a multiple of its alignment, and 164 is a multiple of the record's alignment |
| `DtxHeader.RoundUp` | src/main.rs:70 | the `repr(C)` rounding step gives the least multiple of the alignment at or above its argument |
| `DtxHeader.ReprCOffset` | src/main.rs:70-86 | the `repr(C)` rule for the field offsets: each field starts at the end of the previous one rounded up to its own alignment; `ReprCIsPacked` states its values |
| `DtxHeader.ReprCStep` | src/main.rs:70-86 | rounding a field's packed offset up to the field's alignment leaves it in place |
| `DtxHeader.ReprCIsPacked` | src/main.rs:70-86 | the offsets the `repr(C)` rule computes equal the packed offsets: no padding before any field |
| `DtxHeader.ReprCOffsets` | src/main.rs:70-86 | every field's offset is the one `repr(C)` gives it |
| `DtxHeader.ReprCSizeIsHeaderSize` | src/main.rs:70-86 | the record aligns as its most aligned field, and `repr(C)` adds no tail padding: `size_of::<Header>()` is 164 |
| `DtxHeader.FieldAt` | src/main.rs:70-86 | every one of the 164 bytes belongs to a field (no gap) |
| `DtxHeader.FieldsDisjoint` | src/main.rs:70-86 | no byte belongs to two fields (no overlap) |
| `DtxHeader.FieldIndex` | src/main.rs:72-86 | each field has its place in declaration order |
| `DtxHeader.FieldBytes` | src/main.rs:72-86 | a field's in-memory image is as wide as its type |
| `DtxHeader.EncodePrefix` | src/main.rs:72-86 | the first n fields packed back to back are as long as the offset of field n |
| `DtxHeader.Encode` | src/main.rs:104 | the image of a header is exactly `size_of::<Header>()` = 164 bytes |
| `DtxHeader.Decode` | src/main.rs:106 | `transmute` of 164 bytes; `DecodeField` states that each field is read from its own offset and width, `EncodeDecode` and `DecodeEncode` that the reading is lossless both ways |
| `DtxHeader.EncodePrefixSlice` | src/main.rs:72-86 | in the packed image, the i-th field's bytes sit between its offset and the next field's offset |
| `DtxHeader.EncodeField` | src/main.rs:72-86 | in the image of a header, each field's bytes sit at its own offset with its own width |
| `DtxHeader.DecodeField` | src/main.rs:106 | decoding reads each field from exactly its own offset and width; the 128 command-string bytes and the 12 union bytes are copied verbatim |
| `DtxHeader.DecodeUnsignedField` | src/main.rs:73-78 | each unsigned field is read from its own bytes, least significant first, and re-encodes to them |
| `DtxHeader.DecodeSignedField` | src/main.rs:76-81 | each `i32` field is the two's-complement reading of its own 4 bytes, and re-encodes to them |
| `DtxHeader.SameFieldsSameBytes` | src/main.rs:70-86 | two 164-byte images that agree on every field agree on every byte |
| `DtxHeader.SameBytesSameHeader` | src/main.rs:72-86 | two headers whose fields have the same images are equal |
| `DtxHeader.EncodeDecode` | src/main.rs:106 | re-encoding a decoded header gives back the original 164 bytes |
| `DtxHeader.DecodeEncode` | src/main.rs:106 | decoding an encoded header gives back every field, including both views of the union |
| `DtxHeader.Parse` | src/main.rs:103-107 | `parse` succeeds exactly when the file holds at least 164 bytes; otherwise it fails as a whole with a short read that records how many bytes there were |
| `DtxHeader.ParseLossless` | src/main.rs:103-107 | a parsed header is a lossless view of the file's first 164 bytes |
| `DtxHeader.ParseIgnoresRest` | src/main.rs:104-105 | the bytes after the first 164 do not change the result |
| `DtxHeader.ParseAcceptsAnyHeader` | src/main.rs:76 | no field is validated: every header, with any version, dimensions, counts or flags, is parsed back from its own image |
| `DtxHeader.ExtraLong` | src/main.rs:57 | the two views of the union agree: word i of `extra_long` is bytes 4i..4i+4 of `extra`, least significant first |
| `DtxHeader.ExtraFromLong` | src/main.rs:99 | writing three words into the union and reading them back restores the words |
| `DtxHeader.ExtraBytesRoundTrip` | src/main.rs:55-58 | reading the union as three words and writing them back restores all 12 bytes |
| `DtxHeader.ZerosDecodeToNew` | src/main.rs:89-102 | 164 zero bytes decode to `Header::new()` |
| `DtxHeader.New` | src/main.rs:89-102 | `Header::new()`: every field zero, the union set through `extra_long`; `ZerosDecodeToNew`, `NewExtraIsZero` and `NewIsAllZero` state that it is the all-zero image |
| `DtxHeader.NewExtraIsZero` | src/main.rs:99 | the union of `Header::new()`, set through `extra_long: [0; 3]`, reads as twelve zero bytes |
| `DtxHeader.NewIsAllZero` | src/main.rs:89-102 | `Header::new()` encodes to 164 zero bytes |
| `DtxHeader.ExampleFieldBytes` | src/main.rs:72-86 | each field of the example buffer holds the image of the matching field of the example header |
| `DtxHeader.ExampleHeader` | src/main.rs:103-107 | the example parses to: type 1, 256 x 256, version -5, 4 mipmaps, 1 section, flags fullbrite and cubemap, zero union and command string. Fullbrite and cubemap test set; bump map tests clear |
| `DtxHeader.ExampleFlags` | src/main.rs:13-34 | the flag word 0x401 has `DtxFullbrite` and `DtxCubemap` set and `DtxBumpmap` clear |

## Left out

- `main` (src/main.rs:110-122) is not modelled. It is I/O plumbing: argument collection, `File::open` and its panic, and `dbg!` printing.
- The file read is not modelled. `read_exact_at` on a `File` becomes `Parse` over the file's contents as a byte sequence, read from offset 0.
- The underlying I/O failure (device or permission error) is not modelled. It happens outside the byte-level decode.
- `DtxHeader.Parse`: the source `unwrap`s the read, so a file shorter than 164 bytes makes the program panic. The model returns `Failure(ShortRead(n))` instead, so the failure is visible as a value.
- The `fmt::Debug` impl for `ExtraData` (src/main.rs:60-66) is not modelled. It is presentation only.
- Memory semantics are not modelled: `unsafe`, `transmute`, aliasing, and host-native byte order. Decoding is explicit little-endian field extraction. On a big-endian host the source would read every multi-byte field byte-reversed.
- The meanings of the `extra` sub-fields are not modelled (src/main.rs:41-53). These include the float detail scale in bytes 6..10. The source never interprets these bytes.
- The meanings of the flags (cubemap face layout, bump channels) are not modelled. The source only defines the bit values.
- `CURRENT_DTX_VERSION` is commented out in the source (src/main.rs:39). `CurrentDtxVersion` = -5 appears only in the example, never as a check.
