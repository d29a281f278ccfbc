# LSB steganography over BMP pixel bytes, in Dafny

This project models the two functions of `steganography-cw-sem1.py`.
They hide a text message in the least significant bits of the pixel bytes of a BMP image, and they read it back:

- `encode_message_in_bmp` appends a `'\0'` terminator to the message.
  It expands every character to eight bits, most significant first.
  It rejects a header that does not start with `BM`.
  It overwrites the low bit of successive pixel bytes until the bits run out.
  After that loop it rejects the message if some bits found no pixel byte.
  Only then does it write the header and the new pixel bytes.
- `decode_message_from_bmp` skips the 54-byte header without looking at it.
  It collects the low bit of every pixel byte.
  It reads the bits in groups of eight, each group as a number.
  It stops at the first group that reads as 0.

Files and modules:

- `bits.dfy`, module `Bits`: bytes and bits as integers.
  This module renders a number as binary digits (`f'{c:08b}'`) and reads digits back as a number (`int(digits, 2)`).
  It also holds the two low-bit operations `byte & 1` and `(byte & 0xFE) | bit`.
- `encoder.dfy`, module `Encoder`: the bitstream `MessageBits`.
  The function `Encoded` says what the encoder produces.
  The method `Encode` runs the source's loop over a mutable pixel array and is proved equal to `Encoded`.
- `decoder.dfy`, module `Decoder`: the recursive function `DecodeBits`, the group-by-group characterisation of it, and the method `Decode`.
  `Decode` runs the source's two loops and is proved equal to `Decoded`.
- `roundtrip.dfy`, module `RoundTrip`: the round trip on pixel buffers and on whole files, where the file is split at 54 bytes.
- `scenarios.dfy`, module `Scenarios`: the repository's two unit tests and some worked cases.
  `Scenarios.TestHeader` is the 54-byte header that the tests write (unit test intro to prog.py, lines 14-27): `BM`, file size 154, pixel offset 54, and a 40-byte DIB header for a 10 x 10 image at 24 bits per pixel, with zeros elsewhere.

Messages are sequences of character codes 0..255.
Pixel buffers are sequences of bytes.
The encoder copies its input pixels into an `array` and updates that array in place, as the source updates its `bytearray`.
Its result is a value: either the header and the new pixels, or one of the two `ValueError`s.

Three details of the code that the model keeps:

- The decoder does not drop a final group of fewer than eight bits.
  `bits[i:i+8]` may be short, and `int(..., 2)` reads it as a smaller number.
  That number becomes a character unless it is 0 (`Decoder.GroupValue`, `Decoder.DecodeBits`).
- The decoder does not check the `BM` tag. It takes only the bytes after the first 54.
- The encoder checks capacity after its loop, not before it.
  `Encode` does it that way, and its contract proves the result equal to `Encoded`, which checks capacity first.
  So the two orders give the same outcome.

## Model

| member | source | states |
|---|---|---|
| `Bits.ToBits` | steganography-cw-sem1.py:8 | rendering a number at width `w` yields exactly `w` binary digits |
| `Bits.ToBitsAt` | steganography-cw-sem1.py:8 | digit `j` of a width-`w` rendering of `v` is the bit of weight 2^(w-1-j) of `v`, so the rendering is most significant bit first |
| `Bits.BitsToValue` | steganography-cw-sem1.py:60 | the number a sequence of `n` digits spells is below 2^n, for any `n`, short groups included |
| `Bits.BitsToValueToBits` | steganography-cw-sem1.py:8 | reading back the width-`w` rendering of any `v < 2^w` gives `v` |
| `Bits.ToBitsBitsToValue` | steganography-cw-sem1.py:60 | rendering the number that a digit sequence spells, at that sequence's length, gives the same digits back |
| `Bits.ByteToBits` | steganography-cw-sem1.py:8 | `f'{ord(c):08b}'` for one character code: exactly eight binary digits, most significant first; `Bits.ByteBitsRoundTrip` reads them back |
| `Bits.ByteBitsRoundTrip` | steganography-cw-sem1.py:8 | every character code 0..255 renders as 8 digits that read back as the same code |
| `Bits.BytesToBits` | steganography-cw-sem1.py:8 | joining the renderings of `s` gives eight digits per character |
| `Bits.BytesToBitsAppend` | steganography-cw-sem1.py:8 | rendering a concatenation is the concatenation of the renderings |
| `Bits.BytesToBitsAt` | steganography-cw-sem1.py:8 | character `k` occupies digits `8k .. 8k+7` of the joined rendering |
| `Bits.SetLowBit` | steganography-cw-sem1.py:25 | `(b & 0xFE) OR bit` keeps the upper seven bits of `b` (`r / 2 == b / 2`) and has `bit` as its low bit |
| `Bits.LowBit` | steganography-cw-sem1.py:54 | `byte & 1`: the low bit of a byte, 0 or 1 |
| `Encoder.HasBmpTag` | steganography-cw-sem1.py:14 | the header passes the tag test when it has at least two bytes and they are `B` and `M`; a shorter header always fails it |
| `Encoder.RequiredBits` | steganography-cw-sem1.py:31 | `len(message_bits)` for a message of `n` characters: eight bits per character plus eight for the terminator, the count the capacity check compares against |
| `Encoder.MessageBits` | steganography-cw-sem1.py:6-8 | the bitstream of a message of `n` characters has `8 * (n + 1)` bits |
| `Encoder.MessageBitsAt` | steganography-cw-sem1.py:6-8 | bit `i` of the bitstream is bit `7 - i % 8` of character `i / 8` of the message followed by `'\0'`; the last eight bits are 0 |
| `Encoder.Embed` | steganography-cw-sem1.py:21-28 | embedding never changes the length of the pixel buffer |
| `Encoder.EmbedAt` | steganography-cw-sem1.py:21-28 | byte `i` becomes `SetLowBit(pixels[i], bits[i])` while `i` is below the bitstream's length, and is unchanged otherwise |
| `Encoder.Encoded` | steganography-cw-sem1.py:6-37 | it fails with `NotBmp` exactly when the header does not start with `BM`; it fails with `MessageTooBig` exactly when the tag is right and there are fewer pixel bytes than `8 * (n + 1)`; otherwise it succeeds with the header unchanged and the same number of pixel bytes |
| `Encoder.EncodedPixelAt` | steganography-cw-sem1.py:21-37 | on success, each pixel byte below `8 * (n + 1)` is `(old & 0xFE) OR bit`, with its upper seven bits unchanged and its low bit equal to that bitstream bit; every later byte is unchanged |
| `Encoder.Encode` | steganography-cw-sem1.py:1-37 | the source's loop copies the pixels, writes low bits until the bits or the bytes run out, checks afterwards that every bit was written, and returns exactly `Encoded` |
| `Decoder.LowBits` | steganography-cw-sem1.py:52-54 | the list of low bits, one per pixel byte, in pixel order |
| `Decoder.GroupValue` | steganography-cw-sem1.py:58-59 | the value of bit group `k` (bits `8k` to `8k+7`); a short final group is read as the smaller number its bits spell |
| `Decoder.GroupFits` | steganography-cw-sem1.py:58-60 | a group of at most eight bits reads as a value below 256, so `chr` of it is a one-byte character |
| `Decoder.DecodeBits` | steganography-cw-sem1.py:57-63 | the decoded characters never include 0, and there are at most ceil(N / 8) of them for N bits |
| `Decoder.DecodeBitsStep` | steganography-cw-sem1.py:57-63 | one pass of the group loop at position `i`: the bits from `i` on decode to nothing when the group at `i` reads as 0, and otherwise to that group's value followed by the decoding from `i + 8` on |
| `Decoder.DecodeBitsAt` | steganography-cw-sem1.py:57-63 | character `k` of the decoded stream is the value of bit group `k` |
| `Decoder.DecodeBitsStop` | steganography-cw-sem1.py:57-63 | when fewer characters than groups come out, the group right after them reads as 0, the `'\0'` test of line 60 |
| `Decoder.DecodeBitsByGroups` | steganography-cw-sem1.py:57-63 | character `k` of the result is the value of bit group `k`, and either every group was read or the group right after the result reads as 0 |
| `Decoder.Decoded` | steganography-cw-sem1.py:41-66 | what the decoder returns for a pixel buffer: the group decoding of its low bits |
| `Decoder.Decode` | steganography-cw-sem1.py:41-66 | collecting one low bit per pixel byte, then walking groups of eight and stopping at the first 0, returns exactly `Decoded(pixels)` |
| `RoundTrip.ReadHeader` | steganography-cw-sem1.py:13 | `read(54)`: a prefix of the file, 54 bytes long, or the whole file when it is shorter |
| `RoundTrip.ReadPixels` | steganography-cw-sem1.py:18 | `read()` after the header, also what the decoder reads after `seek(54)`: the header followed by these bytes is the whole file |
| `RoundTrip.Written` | steganography-cw-sem1.py:35-37 | the output file is the header followed by the pixel bytes; with a 54-byte header it reads back as that header and those pixels |
| `RoundTrip.UpToTerminator` | steganography-cw-sem1.py:61-63 | the part of a message that the decoder can see is a prefix of the message without zeros, and it ends at the message's end or at its first zero |
| `RoundTrip.UpToTerminatorWhole` | steganography-cw-sem1.py:61-63 | a message without zero characters is seen whole |
| `RoundTrip.LowBitsEmbed` | steganography-cw-sem1.py:52-54 | the low bits of the embedded pixels are the bitstream, followed by the low bits of the untouched tail |
| `RoundTrip.DecodeFramed` | steganography-cw-sem1.py:57-63 | decoding a framed message, whatever bits follow it, gives the message up to its first zero character |
| `RoundTrip.EncodeThenDecode` | steganography-cw-sem1.py:1-66 | whenever encoding succeeds, decoding the new pixels gives the message up to its first zero character |
| `RoundTrip.MessageRoundTrip` | steganography-cw-sem1.py:1-66 | with a `BM` header, message characters in 1..255 and at least `8 * (n + 1)` pixel bytes, encoding succeeds and decoding returns the message |
| `RoundTrip.FileRoundTrip` | steganography-cw-sem1.py:11-49 | on success, the written file has the input file's length and its first 54 bytes, and decoding the written file gives the message up to its first zero |
| `Scenarios.UnitTestMessageTooLarge` | steganography-cw-sem1.py:21-32 | the unit test `test_message_too_large`: 200 characters against the test image's 100 pixel bytes raise the capacity error |
| `Scenarios.UnitTestEncodeDecodeAsWritten` | steganography-cw-sem1.py:21-32 | the unit test `test_encode_decode` as written: the 31-character test message needs 256 pixel bytes, so against the test image's 100 the encoder raises the capacity error |
| `Scenarios.UnitTestEncodeDecodeIntended` | steganography-cw-sem1.py:1-66 | the unit test `test_encode_decode` with 10 x 10 x 3 = 300 pixel bytes for the header's 10 x 10 image at 24 bits per pixel, ignoring the row padding listed under "Left out": encoding succeeds and decoding the written file returns the test message |
| `Scenarios.HiBits` | steganography-cw-sem1.py:6-8 | the bitstream of "Hi" is `01001000 01101001 00000000` |
| `Scenarios.HiScenario` | steganography-cw-sem1.py:1-66 | "Hi" in 100 bytes of 0xFF turns the first 24 bytes into 0xFE or 0xFF according to the bitstream, leaves the other 76 at 0xFF, and decodes back to "Hi" |
| `Scenarios.TerminatorTruncation` | steganography-cw-sem1.py:57-63 | "AB\0CD" is hidden whole, but decoding stops at the zero and returns "AB" |

## Left out

- File I/O is not modelled: opening, reading, seeking and writing the image files. The encoder takes the header and the pixel bytes as values and returns what it would write. `RoundTrip.ReadHeader`, `RoundTrip.ReadPixels` and `RoundTrip.Written` give the byte layout of those reads and writes.
- The success message that the encoder prints is not modelled.
- The `__main__` driver is not modelled. It holds hard-coded paths, prints and a catch-all exception handler.
- Characters with code points of 256 or more are not modelled. `f'{ord(c):08b}'` renders them with more than eight digits, and the stream then falls out of step with the decoder's groups. Messages here are sequences of codes 0..255.
- Strings are modelled as numbers. The digit strings, `''.join`, `map(str, ...)`, `int(..., 2)` and `chr` become arithmetic on sequences of bits and on character codes.
- `Bits.LowBit`, `Bits.SetLowBit`: `byte & 1` and `(byte & 0xFE) | bit` are written arithmetically (`b % 2`, `b - b % 2 + bit`). These are equal on bytes. `SetLowBit`'s contract states the bitwise meaning.
- BMP structure beyond the 54-byte header and its two-byte tag is not modelled. This covers the other header fields, colour depths and row padding. A file shorter than 54 bytes is accepted: its header is short, and it has no pixel bytes.

## Findings

| source | as written | input that shows it | evidently intended | confidence | as-written member | corrected member |
|---|---|---|---|---|---|---|
| unit test intro to prog.py:12-38 | `test_encode_decode` hides "Test message for steganography!" in a test image with 100 pixel bytes, then expects the message back | the message has 31 characters, so 32 with the terminator, which needs 256 bits; the 100-byte pixel buffer makes `encode_message_in_bmp` raise "this message is too big" at steganography-cw-sem1.py:31-32, and the test errors instead of comparing | a pixel buffer of at least 256 bytes, such as 10 x 10 x 3 = 300 bytes for the header's 10 x 10 image at 24 bits per pixel, ignoring the row padding listed under "Left out"; with it the round trip holds | high; not executed | `Scenarios.UnitTestEncodeDecodeAsWritten` | `Scenarios.UnitTestEncodeDecodeIntended` |
