# bytes-tag in Dafny

`bytes-tag` appends a small self-describing trailer, the *tag*, to an
arbitrary byte buffer and later reads it back from the buffer's end. A tag
is the frame

    checksum (2 bytes) ++ payload (N bytes) ++ header (1 byte)

The header byte is a type code from a fixed registry: `TAG` (code 0) has a
14-byte payload and `BYTE_SIZE` (code 1) an 8-byte payload. The checksum
is the CRC-16/XMODEM of `payload ++ header`, high byte first. A
`BYTE_SIZE` payload holds a 64-bit big-endian integer, usually the length
of the content in front of the tag. The bigint helpers in `bn.ts` produce
and read that integer.

The Dafny project has six modules:

- `Wrappers` (`wrappers.dfy`): `Option` and `Result`.
- `Bytes` (`bytes.dfy`): a `byte` is an int in 0..255. It also models
  JavaScript's `slice`, with negative indices counted from the end and
  the result clamped to the buffer.
- `Crc16` (`crc16.dfy`): CRC-16/XMODEM over integers, bit by bit, most
  significant bit first. It has polynomial 0x1021, initial register 0 and
  no reflection or final xor. It carries a proof that a change to any
  single byte changes the CRC.
- `TagCodec` (`tag.dfy`): the registry, `createHeader`, `parseHeader`,
  `checksum`, `verifyChecksum`, `createTag` and `parseTag`:
  - `createTag` builds its local list step by step (push, unshift,
    unshift), so it is a method growing a `seq<byte>`.
  - The others are functions. `CreateHeader`, `ParseFrame` and `ParseTag`
    return a `Result`, with one error variant per message the code throws.
    `DataTypeOf` returns an `Option`, `ParseHeader` an integer code,
    `Checksum` two bytes and `VerifyChecksum` a boolean.
- `Bn` (`bn.dfy`): `bigintToUint8Array` and `uint8ArrayToBigInt`.
  - Both are methods with loops.
  - They are proved against the reference functions `BigEndian` and
    `BigEndianValue`.
  - Round-trip laws relate the two functions in both directions.
- `SizeTagUsage` (`usage.dfy`): the workflow of the last test:
  1. append a `BYTE_SIZE` tag holding a length;
  2. parse the tag back from the end of the tagged buffer;
  3. decode the length;
  4. cut the content back out.

Three behaviours of the code are worth stating outright:

- A non-empty buffer shorter than the frame of its type has no error of
  its own. `bytes.slice(-(N + 3))` clamps to the whole buffer, and
  `slice(2, -1)` then yields `max(0, len - 3)` bytes. So such a buffer
  fails with "Mismatched data size <len - 3 or 0> and header size <N>".
  `ParseTag` and `TruncatedFrame` state exactly this.
- The length error of `createTag` is "Tag <type> must have <N> bytes".
  This is `WrongDataLength`, distinct from `MismatchedDataSize`, which
  only `parseTag` throws.
- The integer codec takes any bigint and keeps its low 64 bits, in two's
  complement for negative values. `BigIntToBytes` takes any `int`, and
  `EncodeLow64` and `SizeRoundTrip` state what happens to it.

## Model

| member | source | states |
|---|---|---|
| TagCodec.DataTypeOf | index.ts:6-14 | The registry lookup gives a type for exactly the codes 0 and 1. The type found has that code, and it is the only type with that code. |
| TagCodec.CreateHeader | index.ts:16-21 | Succeeds exactly for codes up to 254 and returns the code unchanged. Above 254 it fails with "Data type must be less than 254". |
| TagCodec.HeaderRoundTrip | index.ts:16-25 | A code `createHeader` accepts is below 255. `parseHeader` reads it back unchanged. 254 is accepted and 255 refused, whatever the message says. |
| TagCodec.ParseHeader | index.ts:23-25 | The header byte is read back unchanged as the type code, a value in 0..255; checking it against the registry is left to the lookup that follows. |
| TagCodec.Checksum | index.ts:27-34 | Always two bytes, high byte first: `256 * r[0] + r[1]` is the CRC-16/XMODEM of the data. |
| TagCodec.VerifyChecksum | index.ts:36-39 | True exactly when `check` has at least two bytes and its first two spell the CRC of the data. Equivalently, they equal `checksum(data)`. Later bytes are ignored, and a shorter `check` fails. |
| TagCodec.ChecksumVerifies | index.ts:27-39 | `verifyChecksum(d, checksum(d))` always holds. |
| TagCodec.ChecksumDeterminesCrc | index.ts:27-34 | Two buffers with equal checksums have equal CRCs: the two bytes lose nothing of the 16-bit value. |
| TagCodec.Frame | index.ts:49-55 | The frame of a type and payload has length N + 3. It is checksum, payload, header, and its first two bytes are the checksum of the rest. |
| TagCodec.FrameInjective | index.ts:49-55 | Two frames of one type are equal only for equal payloads. |
| TagCodec.CreateTag | index.ts:41-56 | Fails with "Invalid data type" for an unregistered code. Fails with "Tag t must have N bytes" for a payload of the wrong length; the test lengths 12, 0 and 15 for TAG and 5, 1 and 9 for BYTE_SIZE are such lengths. Succeeds exactly otherwise, with the frame of N + 3 (17 or 11) bytes. |
| TagCodec.ParseFrame | index.ts:66-76 | On the slice taken from the buffer's end: one shorter than the frame gives "Mismatched data size" with `max(0, len - 3)`. A full frame gives "Invalid checksum" when its checksum is wrong, and otherwise the payload between checksum and header. |
| TagCodec.ParseTag | index.ts:58-82 | Sorts every buffer into one outcome. Empty: "Bytes cannot be less than header size". Last byte unregistered: "Invalid data type". Shorter than the frame of the type its last byte names: "Mismatched data size" with `max(0, len - 3)` and N. Otherwise the last N + 3 bytes decide: "Invalid checksum" exactly when their checksum is wrong, else success with the N payload bytes, which are then the frame read back. |
| TagCodec.TailFrame | index.ts:62-69 | A buffer at least as long as the frame of its type parses as its last N + 3 bytes do. |
| TagCodec.SameTail | index.ts:62-69 | Two buffers long enough for the type their common last byte names, and ending in the same N + 3 bytes, parse alike. |
| TagCodec.PrefixIndependence | index.ts:62-69 | `parseTag(prefix ++ b) == parseTag(b)` for every prefix when b is long enough for the type its last byte names, or that byte names no type. |
| TagCodec.RoundTrip | index.test.ts:5-12 | `parseTag(createTag(t, p))` gives back `(t, p)` for every registered type and payload of its size. |
| TagCodec.RecoverAfterPrefix | index.test.ts:102-112 | A tag appended to any buffer, of any length and content, is recovered: `parseTag(prefix ++ frame) == (t, p)`. |
| TagCodec.TruncatedFrame | index.test.ts:41-49 | Keeping only the first k < N + 2 bytes of a frame, plus its header byte, gives "Mismatched data size". The size reported is `max(0, k - 2)` against N. |
| TagCodec.CorruptedPayload | index.test.ts:34-40 | Changing any one payload byte of a frame to any other value makes `parseTag` fail with "Invalid checksum". |
| TagCodec.CorruptedChecksum | index.ts:74-76 | Changing either checksum byte of a frame makes `parseTag` fail with "Invalid checksum". |
| Crc16.Crc16Xmodem | index.ts:28 | The CRC-16/XMODEM of the data: the 16-bit register starts at 0, and each byte is xored into its high half and shifted out most significant bit first with polynomial 0x1021 (Update), no reflection and no final xor. The contract states the empty message leaves 0; the standard check value is not proved (see Left out). |
| Crc16.Crc16XmodemAppend | index.ts:28 | The CRC of a message with one more byte is the previous CRC with that byte fed in by Update: the register takes the bytes one after another. |
| Crc16.SingleByteChangeDetected | index.ts:28 | CRC-16/XMODEM tells apart any two messages that differ in exactly one byte. |
| Crc16.CrcFromAppend | index.ts:28 | The CRC register after `s ++ t` is the register after s, fed t. |
| Bytes.ResolveIndex | index.ts:62-69 | A slice index resolves as JavaScript does: a negative index counts from the end, and the result is clamped to 0..len, in every case. |
| Bytes.Slice | index.ts:62-69 | `s.slice(start, end)` has length `e - b` for the resolved indices when b < e and is empty otherwise, and element k is `s[b + k]`. |
| Bytes.SliceLast | index.ts:62-66 | `s.slice(-n)` is the last n elements, or all of s when it is shorter. |
| Bn.BigIntToBytes | bn.ts:1-7 | Returns exactly 8 bytes. Byte 7 - i is `(value >> 8i) & 0xFF`, floor shift and low byte. The result is the 8-byte big-endian encoding of the value. |
| Bn.BigEndianAt | bn.ts:3-5 | In the n-byte big-endian encoding, index n - 1 - i holds byte i counted from the low end. |
| Bn.BytesToBigInt | bn.ts:9-18 | Fails with "Uint8Array must be exactly 8 bytes long." exactly when the length is not 8. Otherwise returns the big-endian value of the bytes, which lies in [0, 2^64). |
| Bn.BigEndianValue | bn.ts:13-17 | The value of an n-byte big-endian string is below 256^n. |
| Bn.DecodeEncode | bn.ts:1-18 | Decoding the n-byte encoding of v gives v mod 256^n. |
| Bn.EncodeDecode | bn.ts:1-18 | Encoding the value of any byte string in its own length gives back the string. For 8 bytes, encode(decode(b)) == b. |
| Bn.SizeRoundTrip | bn.ts:1-18 | decode(encode(v)) == v for 0 <= v < 2^64, and v + 2^64 for -2^64 <= v < 0. |
| Bn.EncodeLow64 | bn.ts:2-4 | encode(v) == encode(v mod 2^64): only the low 64 bits reach the output. |
| Bn.SameEncoding | bn.ts:2-4 | Two values have the same 8-byte encoding exactly when they agree modulo 2^64. |
| SizeTagUsage.SizeTagParses | index.test.ts:130-137 | The BYTE_SIZE frame of a size below 2^64, after any buffer, parses back to a payload that decodes to that size. |
| SizeTagUsage.RecoverContent | index.test.ts:119-142 | Tag the content with its size, parse the tag from the tagged buffer, decode the size and cut that many bytes off the front. The result is exactly the first `size` bytes of the content. |
| SizeTagUsage.LeadingBytes | index.test.ts:139 | Cutting n bytes, no more than a holds, off the front of `a ++ b` cuts them off a. |

## Left out

- Crc16.Crc16Xmodem: the `crc` package's own implementation is not part of this model. The function is defined from the published CRC-16/XMODEM parameters instead.
- Crc16.Crc16Xmodem: the standard check value (0x31C3 for the ASCII digits "123456789") is not proved, because evaluating the bitwise recursion on constants is too costly for the verifier.
- TagCodec.ParseHeader: `header as DataType` is a type-level cast in the code. It is modelled as reading the byte as an integer code. An unregistered code is caught by the next step, as in the code.
- TagCodec.CreateTag: the `createHeader` failure inside `createTag` cannot happen, because registered codes are 0 and 1. The model drops the branch and takes the header's value, which the verifier shows exists.
- TagCodec.CreateTag: the type argument is an integer. Non-integer numbers, strings, and the JavaScript truthiness of `DataTypeSize[...]` for values outside the enum are not modelled; every registered size is non-zero.
- Inputs of type `Array<number>` with elements outside 0..255, or not integers, are not modelled: every buffer is a sequence of bytes. Bn.BytesToBigInt relies on this to read `(value << 8) | byte` as `value * 256 + byte`.
- The SHA-256 hashing of the last test (`Bun.CryptoHasher`) is left out. In place of comparing two hashes, SizeTagUsage.RecoverContent shows that the hashed bytes are the same bytes.
- `Number(byteSize)` is left out: it loses precision for sizes above 2^53, and the model keeps sizes exact.
- `crypto.getRandomValues` and the test runner are left out. Random inputs become universally quantified arguments.
- The test that random bytes without a tag fail is left out, because it is probabilistic. Roughly 2 in 256 × 65536 random buffers end in a valid frame and parse. Only its deterministic part is stated: a last byte other than 0 or 1 always fails with "Invalid data type" (TagCodec.ParseTag).
- The JavaScript object shapes (`{ type, data }`, `Uint8Array` versus `Array`) are left out. A parsed tag is the datatype `ParsedTag`, and every byte buffer is a `seq<byte>`.
