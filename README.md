# Scalar and nested-message codecs of a protocol-buffer wire format

This project models the codec layer of gin-tonic's protobuf wire format in Dafny.
It covers the scalar codecs and the `Message` codec in `core/src/wire/scalars.rs`, and the
size rule for length-prefixed fields in `core/src/wire/nested.rs`. It proves
properties of that model.

Every scalar type has three operations:

- `into_wire` turns a value into an owned `WireType`.
- `from_wire` reads a value back from a borrowed `WireTypeView`.
- `size_hint(tag)` gives the number of bytes the tagged field occupies.

How each type is written:

- `f64` and `f32` use the fixed-width shapes `FixedI64` and `FixedI32`.
- `u64`, `i64`, `u32`, `i32` and `bool` use base-128 `VarInt`s. The signed types are zig-zag encoded first, because the `integer_encoding` crate encodes signed integers that way. This is the encoding protobuf uses for `sint32`/`sint64`, not the two's-complement form it uses for `int32`/`int64`.
- `String` and any `Message` are written as `LengthEncoded` payloads.

Modules:

- `IntEncoding` (`int_encoding.dfy`) specifies the base-128 varint primitive. That primitive comes from the `integer_encoding` crate, which is not part of this model. The module covers:
  - the byte count `RequiredSpace`;
  - the encoding `EncodeVar`;
  - the decoders `DecodeU64`, `DecodeI64`, `DecodeU32` and `DecodeI32`, which read at most 10 bytes;
  - zig-zag encoding;
  - the writer `EncodeVarInto`, which fills a caller's buffer.
- `Utf8` (`utf8.dfy`) defines well-formed UTF-8. This is the check `String::from_utf8` makes. It follows the table of well-formed byte sequences in section 3.9 of the Unicode Standard.
- `Wire` (`wire.dfy`) holds the shared types:
  - the error type;
  - `WireType` and `WireTypeView`;
  - `View`, the payload a reader gets back from an owned value; it stands for the framing around the codecs (writing a field out and handing its payload to `from_wire`), which lies outside `scalars.rs` and `nested.rs`;
  - `PayloadBytes` and `FieldBytes`, the bytes of a payload and of a tagged field;
  - `FieldLength`, the byte length of a tagged field under the wire format;
  - `MessageCodec`, the contract of a composite value (`Message`).
- `Scalars` (`scalars.dfy`) holds the codecs of `scalars.rs`.
- `Nested` (`nested.dfy`) holds the size rule of `nested.rs`.

Points where the model records the code's behaviour as it stands:

- **No length check after a nested write.** `IntoWire` for a message does not check that the bytes written equal `size_hint()`. It emits the first `written = size - remaining` bytes of its scratch buffer (core/src/wire/scalars.rs:240-241).
- **Message sizes are not exact.**
  - A message's `size_hint(tag)` is the tag's length plus `Message::size_hint()`, with no length prefix (core/src/wire/scalars.rs:246; `SizeHintMessage`).
  - `nested::size_hint` adds a prefix for that sum and adds the tag's length again. So for a message field it counts the tag twice. The model states this as observed behaviour (`Nested.MessageTagCountedTwice`) and does not correct it.
  - The over-estimate does no harm to the encoder. `IntoWireMessage` emits only the bytes actually written.

## Model

| member | source | states |
|---|---|---|
| `IntEncoding.DecodeRaw` | core/src/wire/scalars.rs:67 | a successful base-128 read consumes between 1 and `limit` bytes, and no more than the input holds |
| `IntEncoding.DecodeRawStopsAtTerminator` | core/src/wire/scalars.rs:67 | reading fails exactly when none of the first `limit` bytes has its high bit clear; otherwise it stops at the first such byte |
| `IntEncoding.DecodeU64` | core/src/wire/scalars.rs:67 | `u64::decode_var` fails exactly when the first ten bytes (or fewer, if the input is shorter) all carry the continuation bit; on success it consumes 1 to 10 bytes |
| `IntEncoding.DecodeU32` | core/src/wire/scalars.rs:125 | `u32::decode_var` fails exactly when the `u64` read fails or gives a value of 2^32 or more; otherwise it gives that value |
| `IntEncoding.DecodeI64` | core/src/wire/scalars.rs:96 | `i64::decode_var` fails exactly when the `u64` read fails; otherwise its result zig-zag encodes to the raw value |
| `IntEncoding.DecodeI32` | core/src/wire/scalars.rs:154 | `i32::decode_var` fails exactly when the `i64` read fails or gives a value outside the 32-bit range |
| `IntEncoding.EncodeVarInto` | core/src/wire/scalars.rs:79 | `encode_var` writes the base-128 encoding of the value at the front of the buffer, returns its length `RequiredSpace(v)` and leaves the rest of the buffer as it was |
| `IntEncoding.EncodeVarShape` | core/src/wire/scalars.rs:79 | every byte of an encoding except the last has the continuation bit set, and the last does not |
| `IntEncoding.EncodeVarLength` | core/src/wire/scalars.rs:84 | `required_space` equals the length of the encoding |
| `IntEncoding.RequiredSpaceRange` | core/src/wire/scalars.rs:84 | `RequiredSpace(n)` is the least `k >= 1` with `n < 128^k` |
| `IntEncoding.RequiredSpaceAtMost` | core/src/wire/scalars.rs:84 | any value below `128^k` fits in `k` bytes |
| `IntEncoding.RequiredSpaceMonotone` | core/src/wire/nested.rs:9 | a larger value never needs fewer bytes |
| `IntEncoding.RequiredSpaceWidths` | core/src/wire/nested.rs:9 | a 64-bit value takes 1 to 10 bytes; a 32-bit value (a tag) takes 1 to 5 |
| `IntEncoding.DecodeRawEncode` | core/src/wire/scalars.rs:77-81 | reading back an encoding gives the value and the encoding's length, whatever bytes follow it |
| `IntEncoding.DecodeU64Encode` | core/src/wire/scalars.rs:61-81 | `u64` round trip: decoding `encode_var(v)` followed by any bytes gives `(v, RequiredSpace(v))` |
| `IntEncoding.DecodeU32Encode` | core/src/wire/scalars.rs:119-139 | `u32` round trip of the varint codec |
| `IntEncoding.DecodeI64Encode` | core/src/wire/scalars.rs:90-110 | `i64` round trip through zig-zag and the varint codec |
| `IntEncoding.DecodeI32Encode` | core/src/wire/scalars.rs:148-168 | `i32` round trip through zig-zag and the varint codec |
| `IntEncoding.UnZigZagOfZigZag` | core/src/wire/scalars.rs:108 | un-zig-zag undoes zig-zag for every integer, and zig-zag maps the 64-bit (32-bit) signed range into the 64-bit (32-bit) unsigned range |
| `IntEncoding.ZigZagOfUnZigZag` | core/src/wire/scalars.rs:96 | zig-zag undoes un-zig-zag for every natural number, un-zig-zag maps the 64-bit (32-bit) unsigned range back into the 64-bit (32-bit) signed range, and only 0 maps to 0 |
| `Wire.FieldBytesLength` | core/src/wire/nested.rs:9 | the field length the size hints are stated against is the length of the field's actual bytes (tag varint, then payload; a length-delimited payload is its varint length prefix and the data); the tag reads back from the front of those bytes, and the length prefix and data from the front of the payload |
| `Scalars.FromWireF64` | core/src/wire/scalars.rs:7-18 | succeeds exactly on a `FixedI64` view and returns its 8 bytes unchanged; any other shape gives `UnexpectedWireType` |
| `Scalars.IntoWireF64` | core/src/wire/scalars.rs:23-25 | yields a `FixedI64` of 8 bytes, and `from_wire` of its view gives back the same value |
| `Scalars.SizeHintF64` | core/src/wire/scalars.rs:27-29 | equals the wire length of the field (tag plus 8 bytes), between 9 and 13 |
| `Scalars.FromWireF32` | core/src/wire/scalars.rs:34-45 | succeeds exactly on a `FixedI32` view and returns its 4 bytes unchanged; any other shape gives `UnexpectedWireType` |
| `Scalars.IntoWireF32` | core/src/wire/scalars.rs:50-52 | yields a `FixedI32` of 4 bytes, and `from_wire` of its view gives back the same value |
| `Scalars.SizeHintF32` | core/src/wire/scalars.rs:54-56 | equals the wire length of the field (tag plus 4 bytes), between 5 and 9 |
| `Scalars.VarIntWire` | core/src/wire/scalars.rs:78-80 | the owned varint is a 10-byte buffer; its used length is `RequiredSpace(n)`, between 1 and 10; the used bytes are the base-128 encoding; the bytes after them are zero |
| `Scalars.EncodeIntoVarInt` | core/src/wire/scalars.rs:78-80 | filling a zeroed `[u8; 10]` with `encode_var` gives exactly that owned varint |
| `Scalars.FromWireU64` | core/src/wire/scalars.rs:61-72 | a non-`VarInt` view gives `UnexpectedWireType`; a `VarInt` view gives `InvalidVarInt` exactly when no terminating byte occurs in the first ten bytes; otherwise it gives the decoded value |
| `Scalars.IntoWireU64` | core/src/wire/scalars.rs:77-81 | yields the varint of `v`, and `from_wire` of its view gives back `v` |
| `Scalars.SizeHintU64` | core/src/wire/scalars.rs:83-85 | equals the wire length of the field, `RequiredSpace(v) + RequiredSpace(tag)`, between 2 and 15 |
| `Scalars.FromWireI64` | core/src/wire/scalars.rs:90-101 | a non-`VarInt` view gives `UnexpectedWireType`; a `VarInt` view gives `InvalidVarInt` exactly when the view has no terminating byte; otherwise it gives the value whose zig-zag is the decoded varint |
| `Scalars.IntoWireI64` | core/src/wire/scalars.rs:106-110 | yields the varint of zig-zag(`v`), and `from_wire` of its view gives back `v` |
| `Scalars.SizeHintI64` | core/src/wire/scalars.rs:112-114 | equals the wire length of the field holding zig-zag(`v`), between 2 and 15 |
| `Scalars.FromWireU32` | core/src/wire/scalars.rs:119-130 | a non-`VarInt` view gives `UnexpectedWireType`; a `VarInt` view gives `InvalidVarInt` exactly when the view is unterminated or holds a value of 2^32 or more; otherwise it gives the decoded value |
| `Scalars.IntoWireU32` | core/src/wire/scalars.rs:135-139 | yields the varint of `v`, at most 5 bytes, and `from_wire` of its view gives back `v` |
| `Scalars.SizeHintU32` | core/src/wire/scalars.rs:141-143 | equals the wire length of the field, between 2 and 10 |
| `Scalars.FromWireI32` | core/src/wire/scalars.rs:148-159 | a non-`VarInt` view gives `UnexpectedWireType`; a `VarInt` view gives `InvalidVarInt` exactly when the view is unterminated or its zig-zag value lies outside the 32-bit range |
| `Scalars.IntoWireI32` | core/src/wire/scalars.rs:164-168 | yields the varint of zig-zag(`v`), at most 5 bytes, and `from_wire` of its view gives back `v` |
| `Scalars.SizeHintI32` | core/src/wire/scalars.rs:170-172 | equals the wire length of the field holding zig-zag(`v`), between 2 and 10 |
| `Scalars.FromWireString` | core/src/wire/scalars.rs:177-185 | a non-`LengthEncoded` view gives `UnexpectedWireType`; a `LengthEncoded` view succeeds exactly when its bytes are well-formed UTF-8, and then returns exactly those bytes; otherwise it gives the UTF-8 error |
| `Scalars.IntoWireString` | core/src/wire/scalars.rs:190-192 | yields `LengthEncoded` of exactly the string's bytes, and `from_wire` of its view gives back the string |
| `Scalars.SizeHintString` | core/src/wire/scalars.rs:194-197 | equals the wire length of the field: tag, length prefix and the bytes |
| `Scalars.FromWireBool` | core/src/wire/scalars.rs:202-213 | a non-`VarInt` view gives `UnexpectedWireType`; a `VarInt` view gives `InvalidVarInt` exactly when the signed 32-bit decoder rejects it; otherwise it gives true exactly when the raw varint is non-zero |
| `Scalars.IntoWireBool` | core/src/wire/scalars.rs:218-223 | writes the single byte 1 or 0, and `from_wire` of its view gives back the same bool |
| `Scalars.SizeHintBool` | core/src/wire/scalars.rs:225-227 | equals the wire length of the field, `1 + RequiredSpace(tag)` |
| `Scalars.SerializeInto` | core/src/wire/scalars.rs:238-240 | `serialize` writes the message's bytes at the front of the scratch slice and leaves the rest unchanged; the remaining slice is the buffer minus those bytes |
| `Scalars.IntoWireMessage` | core/src/wire/scalars.rs:234-242 | yields `LengthEncoded` of exactly the bytes `serialize` wrote, `written <= size_hint()`; a shortfall is not padded |
| `Scalars.FromWireMessage` | core/src/wire/scalars.rs:254-265 | a non-`LengthEncoded` view gives `UnexpectedWireType`; otherwise the whole slice goes to `deserialize`; its error is passed on unchanged, and on success its value is returned and the consumed count dropped |
| `Scalars.SizeHintMessage` | core/src/wire/scalars.rs:244-247 | when `serialize` writes exactly `size_hint()` bytes, the result plus the length prefix equals the field's wire length, so the result leaves out the prefix |
| `Scalars.FromWireU64Encoded` | core/src/wire/scalars.rs:61-72 | a `u64` view that begins with the encoding of `v` reads back `v`; the bytes after it are ignored |
| `Scalars.FromWireI64Encoded` | core/src/wire/scalars.rs:90-101 | an `i64` view that begins with the encoding of zig-zag(`v`) reads back `v` |
| `Scalars.FromWireU32Encoded` | core/src/wire/scalars.rs:119-130 | a `u32` view that begins with the encoding of `v` reads back `v` |
| `Scalars.FromWireI32Encoded` | core/src/wire/scalars.rs:148-159 | an `i32` view that begins with the encoding of zig-zag(`v`) reads back `v` |
| `Scalars.FromWireBoolEncoded` | core/src/wire/scalars.rs:206-222 | the byte written for a bool reads back as that bool; `true` (byte 1) goes through the signed decoder as -1 |
| `Scalars.FromWireBoolLenient` | core/src/wire/scalars.rs:208-209 | the varint 2 decodes as true and 0 as false |
| `Scalars.FromWireMalformedVarInt` | core/src/wire/scalars.rs:67 | ten bytes that all carry the continuation bit, or input that ends before a terminating byte, give `InvalidVarInt` for every integer type and for bool |
| `Scalars.U32Example` | core/src/wire/scalars.rs:141-143 | `300u32` is written as `[0xAC, 0x02]`, its field under tag 1 takes 3 bytes, and it reads back as 300 |
| `Scalars.MessageRoundTrip` | core/src/wire/scalars.rs:254-265 | when a message's `deserialize` reads back what its `serialize` wrote, the message round-trips through `LengthEncoded` |
| `Scalars.MessageTrailingBytesIgnored` | core/src/wire/scalars.rs:259-261 | bytes after the ones `deserialize` consumes are not checked |
| `Nested.SizeHint` | core/src/wire/nested.rs:4-10 | the result lies between `s + 2` and `s + 15`, where `s` is the value's `size_hint(tag)` |
| `Nested.SizeHintMonotone` | core/src/wire/nested.rs:9 | a larger inner size never gives a smaller result |
| `Nested.SizeHintFramesPayload` | core/src/wire/nested.rs:9 | when `s` is the payload's own length, the result is the wire length of the tagged, length-prefixed field |
| `Nested.MessageTagCountedTwice` | core/src/wire/nested.rs:8-9 | for a message, the result exceeds the field's wire length by the tag's length, plus the difference between the prefix lengths of `s` and of the payload length |

## Left out

- Floating-point meaning. `f64` and `f32` are modelled only as the 8 and 4 bytes of `to_le_bytes`. NaN payloads and infinities round-trip as bytes. Nothing about their numeric value is modelled.
- Panics. `from_wire` for `f64`/`f32` panics when the fixed slice is not exactly 8 or 4 bytes. The model requires a `FixedI64` view to hold 8 bytes (`f64`) and a `FixedI32` view 4 bytes (`f32`) instead; a view of any other shape, of any length, gives `UnexpectedWireType`.
- The `integer_encoding` crate is not part of this model. Its decoders are specified by the recursive `DecodeRaw`, not by the crate's loop.
- The behaviour of the narrow decoders is assumed. `u32::decode_var` and `i32::decode_var` are taken to reject a value that does not fit 32 bits, as the crate's current releases do. They are not taken to truncate it.
- Integer width of size hints. They are returned as unbounded `nat`s. `usize` wrap-around on an addition is not modelled: no real string or message comes near 2^64 bytes.
- `Scalars.SizeHintString`: returns a `nat`, not a wrapping `usize`; see the line above.
- `Scalars.SizeHintMessage`: returns a `nat`, not a wrapping `usize`; see the line above.
- The UTF-8 error's detail. `FromUtf8Error` carries the bytes and how far they were valid. The model keeps only the `Utf8` error kind.
- `Message::serialize`, `Message::deserialize` and `Message::size_hint` are defined outside the codecs. They are parameters of the model, the function fields of `MessageCodec`.
  - `serialize` is modelled by the bytes it writes.
  - The model assumes those bytes fit in `size_hint()`, as `IntoWireMessage` requires. A longer write would overrun the scratch slice.
  - What `serialize` itself returns is ignored by the code and is not modelled.
- `SmallVec<[u8; 1024]>` and `bytes::Bytes`. The inline-versus-heap choice of the scratch buffer is not modelled, and neither is the reference-counted sharing of the payload. Neither is observable in results. The scratch buffer is a plain array of `size_hint()` bytes.
- Borrow lifetimes. A `WireTypeView` is a sequence of bytes, not a borrowed slice.
- The `Error` enum's definition is not part of this model. It is modelled with only the kinds these codecs produce or pass on.
