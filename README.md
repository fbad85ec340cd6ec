# mqtt-codec: the incremental decode engine, in Dafny

This project models the core of `mqtt-codec`, a zero-copy MQTT 3.1.1 codec, and proves properties of that model.
Every decoder in the codec takes a byte slice and returns `Result<Status<(consumed, value)>>`:
- an error;
- `Partial(needed)`, meaning the input is short by `needed` more bytes and contains nothing invalid so far;
- `Complete((consumed, value))`.

The model covers four pieces:

- **The status protocol** (`status.dfy`, module `Status`).
  - It defines `Status`, `is_complete`, `is_partial` and `unwrap`.
  - It models the `complete!` and `read!` macros as the combinators `Propagate` and `Read`. They return an error or a partial result unchanged, and move the offset on by what a field decoder consumed.
- **The SUBACK variable header** (`suback.dfy`, module `Suback`). It is a 2-byte big-endian packet identifier, as in section 3.9.2 of MQTT 3.1.1.
- **The CONNECT payload** (`connect.dfy`, module `ConnectPayload`). This is section 3.1.3 of MQTT 3.1.1.
  - **Decoding** is pure. `Will::from_bytes` reads a topic and a message. `Connect::from_bytes` reads the client identifier, then the will, the user name and the password, each only when its connect flag is set. Given only a prefix of the input, each decoder asks for at least one more byte and never for more than the value still needs (partial monotonicity).
  - **Encoding** is imperative: `Will::to_bytes` and `Connect::to_bytes` write into a caller's buffer, modelled as methods on an `array<byte>`.
  - **The encoder specification.** A correct encoder's effect is a list of `Write`s: a length-prefixed field at a position. `Perform` performs them in order and stops at the first write that does not fit. Each encoder method is proved to do exactly what `Perform` does on the writes it makes, in which cases it fails, and what count it reports. A failed encode therefore leaves the buffer with the writes before the failing one applied (`PerformFails`): the `?` operator returns early but does not undo them.
  - `Will::new` is the constructor of the `Will` datatype.
- **Packet decoding** (`packet.dfy`, module `Packet`). This is sections 2.1-2.3 of MQTT 3.1.1.
  - `Packet::from_bytes` reads the fixed header.
  - It then reads the variable header for the packet's type, when the type has one.
  - Last, it takes the payload window. Its length is the remaining length minus what the variable header consumed.

Two more modules support these:
- `types.dfy` (module `Types`): bytes, `Option`, `Result` and one error type.
- `codec.dfy` (module `Codec`): the primitive codecs the core calls, plus the write specification.
  - The primitives are `parse_u16`, `parse_bytes`, `parse_string`, `encode_bytes` and `encode_string`. Their source is not part of this model.
  - They are given here as the framing of section 1.5.3 of MQTT 3.1.1: a 2-byte big-endian length, then that many bytes.
  - UTF-8 well-formedness follows section 4 of RFC 3629.

Three places in the source do not do what the surrounding code evidently intends (see "Findings").
For each one:
- the model holds the code as written;
- a lemma exhibits the discrepancy;
- a corrected definition carries the intended property.

For `Packet::from_bytes`, the missing check that the variable header stays within the remaining length is modelled as an error branch: `MalformedPacket`.

## Model

| member | source | states |
|---|---|---|
| `Status.IsComplete` | src/status.rs:17-22 | true exactly when the status is not partial, so every status is exactly one of the two |
| `Status.IsPartial` | src/status.rs:26-31 | true exactly for `Partial` |
| `Status.Unwrap` | src/status.rs:36-41 | defined only on a complete status (the source panics otherwise), and returns the value it carries |
| `Status.Propagate` | src/status.rs:44-52 | the early return of `complete!`/`read!`: the same error, or `Partial` with the same count, never `Partial(0)` when the input was not |
| `Status.Read` | src/status.rs:54-61 | `read!` stops exactly when the field decoder on the suffix at `offset` stops, with the same error or count; otherwise the result is `(offset + consumed, value)` |
| `Status.ReadTwice` | src/status.rs:54-61 | two `read!` steps from offset 0 end at the sum of the two consumed counts |
| `Codec.ParseU16` | src/variable_header/suback.rs:24 | fewer than 2 bytes is `Partial(2 - len)`; otherwise 2 bytes consumed and their big-endian value |
| `Codec.ParseBytes` | src/payload/connect.rs:21 | a partial result counts exactly the bytes missing from the prefix or the field; on completion `2 + len` bytes are consumed and they are the length-prefixed field |
| `Codec.ParseString` | src/payload/connect.rs:20 | the framing of `parse_bytes`; a framed field that is not well-formed UTF-8 is `InvalidUtf8`, never a partial result |
| `Codec.ParseBytesOfLengthPrefixed` | src/payload/connect.rs:21 | a length-prefixed field decodes back to itself, whatever follows it |
| `Codec.ParseStringOfLengthPrefixed` | src/payload/connect.rs:20 | a length-prefixed UTF-8 string decodes back to itself, whatever follows it |
| `Codec.ParseBytesPrefix` | src/payload/connect.rs:21 | partial monotonicity: on the first `k` bytes of a field it decodes by consuming `n`, the same result once `k >= n`, otherwise `Partial(m)` with `1 <= m` and `k + m <= n` |
| `Codec.ParseStringPrefix` | src/payload/connect.rs:20 | the same for a string: a prefix of a valid string is never an error, only partial within the field |
| `Codec.EncodeBytes` | src/payload/connect.rs:34 | succeeds exactly when the field fits its 16-bit prefix and the slice; then writes prefix and field at `start`, changes no other byte and reports `2 + len`; on error writes nothing |
| `Codec.EncodeString` | src/payload/connect.rs:33 | the same for a string's UTF-8 bytes |
| `Codec.PerformFails` | src/payload/connect.rs:95-112 | an encoder whose writes do not all fit (the `?` early returns) stops at the first write that does not fit, reports that write's error, and leaves the buffer with exactly the writes before it applied |
| `Suback.FromBytes` | src/variable_header/suback.rs:16-29 | `Partial(2 - len)`, which is 1 or 2, exactly when fewer than 2 bytes; otherwise `Complete` with 2 consumed and the big-endian identifier; never an error |
| `Suback.PacketIdentifier` | src/variable_header/suback.rs:31-33 | the header holding the result is the header given |
| `Suback.FromBytesOfIdentifier` | src/variable_header/suback.rs:16-33 | an identifier's own two bytes, followed by anything, decode to that identifier |
| `Suback.FromBytesIgnoresTrailing` | src/variable_header/suback.rs:24-28 | bytes after the first two do not change the result |
| `Suback.Examples` | src/variable_header/suback.rs:17-28 | `[0x00, 0x05]` is identifier 5, `[0x00]` is `Partial(1)`, `[]` is `Partial(2)` |
| `ConnectPayload.WillFromBytes` | src/payload/connect.rs:18-26 | never `Partial(0)`; the topic's error or partial result is returned unchanged, and so is the message's once the topic has been read; consumes at most the input |
| `ConnectPayload.WillFromBytesSound` | src/payload/connect.rs:18-26 | on completion the consumed bytes are exactly the framed topic and message, `4 + |topic| + |message|` of them, and the topic is UTF-8 |
| `ConnectPayload.WillFromBytesOfFramed` | src/payload/connect.rs:18-26 | a framed will decodes back to itself, whatever follows it |
| `ConnectPayload.WillFromBytesPrefix` | src/payload/connect.rs:18-26 | partial monotonicity of `Will::from_bytes`: a prefix of a will it decodes gives the same result once it holds the whole will, otherwise asks for at least one and at most the missing bytes |
| `ConnectPayload.ReadIf` | src/payload/connect.rs:61-80 | an absent field consumes nothing and is `None`; a present one is `read!`, with its stop returned unchanged and its value wrapped in `Some` |
| `ConnectPayload.ReadIfPrefix` | src/payload/connect.rs:61-80 | an optional field read from a prefix: the same result once the prefix reaches the field's end, otherwise partial within the field, provided the field decoder is partially monotone |
| `ConnectPayload.ConnectFromBytes` | src/payload/connect.rs:55-87 | the decoder as written: never `Partial(0)`, the client identifier's stop returned unchanged, at most the input consumed, and any password returned is the whole input |
| `ConnectPayload.ConnectFromBytesIntended` | src/payload/connect.rs:55-87 | the decoder storing the password it read: never `Partial(0)`, the client identifier's stop returned unchanged, at most the input consumed |
| `ConnectPayload.ConnectFromBytesPropagates` | src/payload/connect.rs:61-80 | an error or partial result of the will (including its nested reads), user name or password read is what the decoder returns |
| `ConnectPayload.ConnectFromBytesIntendedSound` | src/payload/connect.rs:55-87 | whatever the decoder accepts is the wire image of what it returns: fields present exactly as the flags select, strings UTF-8, consumed bytes exactly the framed fields in order |
| `ConnectPayload.ConnectRoundTrip` | src/payload/connect.rs:55-87 | the wire image of any representable payload, decoded under its own flags, gives back the payload and consumes exactly the image, whatever follows |
| `ConnectPayload.ConnectFromBytesStoresInput` | src/payload/connect.rs:75-87 | the decoder as written stops exactly where the corrected one does, with the same result, and otherwise differs only in returning the whole input as the password |
| `ConnectPayload.ConnectFromBytesIntendedPrefix` | src/payload/connect.rs:55-87 | partial monotonicity: on fewer bytes than it consumes from a complete input, the decoder returns `Partial(m)` with `1 <= m` and `k + m` at most what it consumes |
| `ConnectPayload.ConnectFromBytesPrefix` | src/payload/connect.rs:55-87 | the same for the decoder as written |
| `ConnectPayload.ConnectPrefix` | src/payload/connect.rs:55-87 | every proper prefix of length `k` of a payload's wire image is `Partial(m)` with `1 <= m` and `k + m` at most the image's size: the decoder never asks for bytes past the payload |
| `ConnectPayload.ConnectPrefixAsWritten` | src/payload/connect.rs:55-87 | the same for the decoder as written |
| `ConnectPayload.ClientIdOnly` | src/payload/connect.rs:56-87 | with no flag set only the client identifier is read: `2 + |client_id|` bytes consumed, and they are its framing |
| `ConnectPayload.ClientIdExample` | src/payload/connect.rs:56-87 | `[0, 3, 'a', 'b', 'c']` followed by anything is client identifier "abc" with 5 bytes consumed |
| `ConnectPayload.PasswordIsWholeInput` | src/payload/connect.rs:75-80 | for every payload with a password, the decoder as written returns the whole input as the password; the input is always longer than the real password, so the round trip fails |
| `ConnectPayload.WillToBytes` | src/payload/connect.rs:31-36 | `Will::to_bytes` as written performs the topic write and then the message write right after it, failing exactly as they do; on success it reports `2 + |message|` |
| `ConnectPayload.WillToBytesIntended` | src/payload/connect.rs:31-36 | the same writes; on success it reports the size of the whole framed will |
| `ConnectPayload.OptionalWillToBytes` | src/payload/connect.rs:96-100 | no write and count 0 without a will; otherwise what `Will::to_bytes` as written does and reports. The `else { offset }` arm stays in `ConnectToBytes`, which keeps `offset` when the will is absent, so this 0 never becomes an offset |
| `ConnectPayload.OptionalWillToBytesIntended` | src/payload/connect.rs:96-100 | the same, reporting the framed size of the will (0 when absent) |
| `ConnectPayload.OptionalStringToBytes` | src/payload/connect.rs:102-106 | no write and count 0 without a user name; otherwise the framed user name at `offset`, reporting its size. The `else { offset }` arm stays in `ConnectToBytes`; the helper's 0 serves the accumulating `ConnectToBytesIntended` |
| `ConnectPayload.OptionalBytesToBytes` | src/payload/connect.rs:108-112 | no write and count 0 without a password; otherwise the framed password at `offset`, reporting its size. The `else { offset }` arm stays in `ConnectToBytes`; the helper's 0 serves the accumulating `ConnectToBytesIntended` |
| `ConnectPayload.ConnectToBytes` | src/payload/connect.rs:92-115 | `Connect::to_bytes` as written performs its writes, at the offsets it actually uses, in order, stopping at the first that does not fit; on success it reports the last callee's count |
| `ConnectPayload.ConnectToBytesIntended` | src/payload/connect.rs:92-115 | with offsets accumulated: fails exactly when the framed payload does not fit; on success the buffer starts with the payload's wire image, every later byte is kept, and the count is the image's size |
| `ConnectPayload.AsWrittenLayoutAgrees` | src/payload/connect.rs:95-112 | the writes of the encoder as written are those of a correct encoder exactly when at most one of will, user name and password is present |
| `ConnectPayload.AsWrittenCountAgrees` | src/payload/connect.rs:95-114 | the count reported as written is never more than the payload's size, and equal exactly when only the client identifier is present |
| `ConnectPayload.AsWrittenClientIdOnly` | src/payload/connect.rs:95-114 | with no optional field the encoder as written writes the framed client identifier at position 0, keeps the bytes after it, and reports `2 + |client_id|`; it fails exactly when that does not fit |
| `Packet.WrappingSub` | src/packet.rs:37 | `usize` subtraction in a release build: the difference when it is not negative, wrapped modulo 2^64 otherwise |
| `Packet.FromBytes` | src/packet.rs:24-63 | the fixed header's and variable header's errors and partials are returned unchanged; never `Partial(0)`; a variable header that consumed more than the remaining length is `MalformedPacket`; it completes exactly when the variable header fits and the input holds the whole packet; a short packet asks for exactly the missing bytes; a complete one consumes fixed header plus remaining length, and its payload is the rest of that window, with variable header plus payload equal to the remaining length |
| `Packet.FromBytesAsWritten` | src/packet.rs:24-63 | the decoder with the unchecked wrapping subtraction: never `Partial(0)`, and a completed packet lies within the input |
| `Packet.AsWrittenAgrees` | src/packet.rs:29-58 | the code as written and the corrected decoder agree exactly on the inputs where the variable header does not overrun the remaining length |
| `Packet.AsWrittenOverruns` | src/packet.rs:37-42 | where it overruns, the code as written asks for `2^64 - len(bytes) + fixed_header_len + remaining_length` more bytes, more than any slice can hold; the corrected decoder reports `MalformedPacket` |
| `Packet.FromBytesPrefix` | src/packet.rs:24-63 | a strict prefix of a packet the decoder completes on is partial and asks for no more bytes than the packet has left, given that the fixed and variable header decoders are prefix-monotone on it |
| `Packet.FromBytesAsWrittenPrefix` | src/packet.rs:24-63 | the same for the code as written: on a prefix of a packet it completes on, the variable header cannot overrun |
| `Packet.SubackDispatchPrefix` | src/packet.rs:29 | the SUBACK dispatch keeps the variable-header decoder contract and meets the prefix hypothesis of `FromBytesPrefix` on every prefix |
| `Packet.SubackDispatch` | src/packet.rs:29 | a variable-header dispatch for SUBACK alone: present exactly for packet type 9, where it is `Suback::from_bytes`'s partial or complete result with the header tagged as SUBACK; it keeps the variable-header decoder contract |
| `Packet.EmptySubackExample` | src/packet.rs:29-42 | a SUBACK with remaining length 0 followed by `[0x00, 0x05]`: as written `Partial(2^64 - 2)`, corrected `MalformedPacket` |

## Left out

- `FixedHeader::from_bytes`, `VariableHeader::from_bytes` and the `codec` module are not part of this model.
  - `Packet.FromBytes` takes the first two as parameters, held to the contracts `FixedHeaderDecoder` and `VariableHeaderDecoder`. The fixed-header decoder consumes at least one byte and at most its input, never returns `Partial(0)`, and yields a header whose packet type and flags are each below 16 and whose remaining length is at most 268435455. The variable-header decoder's presence (`Some` or `None`) depends on the packet type alone; a present result follows the same protocol and consumes at most its input.
  - The variable-length integer encoding of the remaining length and the full dispatch table are not modelled. `Packet.SubackDispatch` is an example dispatch that knows only SUBACK.
- The primitive codecs are specified by the framing of section 1.5.3 of MQTT 3.1.1, not by their source.
  - Which error `encode_bytes` reports is modelled as `LengthOverflow` for a field over 65535 bytes and `InsufficientCapacity` for a slice too short. Either way it writes nothing.
- `DecodeError`, `EncodeError` and `ParseError` are collapsed into one `Error` type.
- Lifetimes and zero-copy borrowing: views into the input are modelled as subsequences. Strings are modelled as their UTF-8 bytes.
- In Rust, `&mut bytes[offset..]` hands each encoder a sub-slice; the model gives the encoders the whole array and a start position.
  - A failed write leaves the buffer unchanged.
  - The model does not show that a slice start past the end would panic. It cannot happen here: every start used lies within a part of the buffer an earlier write has just fitted into.
- The `if let` blocks of `Connect::to_bytes` are factored into the helper methods `OptionalWillToBytes`, `OptionalStringToBytes` and `OptionalBytesToBytes`. The order of the writes and the values assigned to `offset` are unchanged.
- Integer widths are not modelled, except the `usize` subtraction at `src/packet.rs:37`.
  - Lengths are unbounded naturals. Field lengths are limited only where the 16-bit prefix limits them.
  - That subtraction is modelled as the release-build wrap-around on a 64-bit target. A debug build panics there instead; the panic is not modelled.
- `Packet.FromBytesAsWritten`: stated for inputs of at most `isize::MAX` bytes, the most a Rust slice can hold.
- `Debug`/`PartialEq` derives, the empty test module and transport, buffering and retry outside the codec are not modelled.

## Findings

| source | as written | input that shows it | evidently intended | confidence | as-written member | corrected member |
|---|---|---|---|---|---|---|
| src/payload/connect.rs:77 | the password stored is `Some(bytes)`, the whole input slice | any payload with a password, e.g. password flag only on `[0, 0, 0, 1, 7]`, returns password `[0, 0, 0, 1, 7]` instead of `[7]` | store the password field just read; then every representable payload round-trips (`ConnectRoundTrip`) | not executed | `ConnectPayload.PasswordIsWholeInput` | `ConnectPayload.ConnectFromBytesIntended` |
| src/payload/connect.rs:33-35, src/payload/connect.rs:95-114 | `offset` is set to each callee's own count rather than advanced by it | `Connect([], Some(Will([], [])), Some("u"), None)`: the user name is written at offset 2, over the will topic, and the count is 3 instead of 9 | advance `offset` by each count; then the buffer holds the payload's wire image and the count is its size | not executed | `ConnectPayload.AsWrittenLayoutAgrees` | `ConnectPayload.ConnectToBytesIntended` |
| src/packet.rs:37 | the payload length is `len() - consumed` with no check that the variable header consumed at most the remaining length | SUBACK fixed header `[0x90, 0x00]` (remaining length 0) then `[0x00, 0x05]`: `Partial(2^64 - 2)` in a release build, a panic in a debug build | reject the packet as malformed | not executed | `Packet.AsWrittenOverruns` | `Packet.FromBytes` |
