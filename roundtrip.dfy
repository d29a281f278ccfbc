/** How the encoder and the decoder fit together: the decoder reads back the
    message the encoder hid, up to its first zero character, both on the
    pixel bytes and on the whole file the encoder writes and the decoder
    reads. */
module RoundTrip {
  import opened Bits
  import opened Encoder
  import opened Decoder

  /** The header length both sides assume: `read(54)` in the encoder,
      `seek(54)` in the decoder. */
  const HeaderSize: nat := 54

  /** `bmp_file.read(54)`: at most the first 54 bytes of the file. */
  function ReadHeader(file: seq<Byte>): (header: seq<Byte>)
    ensures header <= file
    ensures |header| == if |file| < HeaderSize then |file| else HeaderSize
  {
    if |file| < HeaderSize then file else file[..HeaderSize]
  }

  /** `bmp_file.read()` after the header, or after `seek(54)`: whatever
      follows the first 54 bytes, nothing for a shorter file. */
  function ReadPixels(file: seq<Byte>): (pixels: seq<Byte>)
    ensures ReadHeader(file) + pixels == file
  {
    if |file| < HeaderSize then [] else file[HeaderSize..]
  }

  /** The output file: `write(header)` then `write(pixel_data)`. A file
      written with a 54-byte header reads back as that header and those
      pixels. */
  function Written(s: Stego): (file: seq<Byte>)
    ensures |s.header| == HeaderSize ==> ReadHeader(file) == s.header && ReadPixels(file) == s.pixels
  {
    s.header + s.pixels
  }

  /** The message as the decoder can see it: everything before its first
      zero character, which the decoder takes for the terminator. */
  function UpToTerminator(message: seq<Byte>): (prefix: seq<Byte>)
    ensures prefix <= message
    ensures 0 !in prefix
    ensures |prefix| < |message| ==> message[|prefix|] == 0
  {
    if message == [] || message[0] == 0 then []
    else [message[0]] + UpToTerminator(message[1..])
  }

  /** The low bits of the embedded pixels are the bitstream, followed by the
      low bits of the pixel bytes the bitstream did not reach. */
  lemma LowBitsEmbed(pixels: seq<Byte>, bits: seq<Bit>)
    requires |bits| <= |pixels|
    ensures LowBits(Embed(pixels, bits)) == bits + LowBits(pixels[|bits|..])
  {
    var out := Embed(pixels, bits);
    forall i | 0 <= i < |pixels|
      ensures LowBits(out)[i] == (bits + LowBits(pixels[|bits|..]))[i]
    {
      EmbedAt(pixels, bits, i);
    }
  }

  /** Decoding a framed message, whatever follows it, stops at the message's
      first zero character or at the terminator. */
  lemma {:induction false} DecodeFramed(message: seq<Byte>, rest: seq<Bit>)
    ensures DecodeBits(BytesToBits(message + [Terminator]) + rest) == UpToTerminator(message)
  {
    var framed := message + [Terminator];
    var c := framed[0];
    var stream := BytesToBits(framed) + rest;
    assert BytesToBits(framed) == ByteToBits(c) + BytesToBits(framed[1..]);
    assert stream[..8] == ByteToBits(c);
    ByteBitsRoundTrip(c);
    if message != [] && c != 0 {
      assert framed[1..] == message[1..] + [Terminator];
      assert stream[8..] == BytesToBits(message[1..] + [Terminator]) + rest;
      DecodeFramed(message[1..], rest);
    }
  }

  /** A message without zero characters is seen whole. */
  lemma UpToTerminatorWhole(message: seq<Byte>)
    requires 0 !in message
    ensures UpToTerminator(message) == message
  {
  }

  /** Whenever encoding succeeds, decoding the new pixel bytes gives the
      message up to its first zero character. */
  lemma EncodeThenDecode(header: seq<Byte>, pixels: seq<Byte>, message: seq<Byte>)
    requires Encoded(header, pixels, message).Success?
    ensures Decoded(Encoded(header, pixels, message).value.pixels) == UpToTerminator(message)
  {
    var bits := MessageBits(message);
    LowBitsEmbed(pixels, bits);
    DecodeFramed(message, LowBits(pixels[|bits|..]));
  }

  /** The round trip: a message of characters 1..255 hidden in a BMP pixel
      buffer with one byte per bit, terminator included, decodes to itself. */
  lemma MessageRoundTrip(header: seq<Byte>, pixels: seq<Byte>, message: seq<Byte>)
    requires HasBmpTag(header)
    requires 0 !in message
    requires RequiredBits(|message|) <= |pixels|
    ensures Encoded(header, pixels, message).Success?
    ensures Decoded(Encoded(header, pixels, message).value.pixels) == message
  {
    EncodeThenDecode(header, pixels, message);
    UpToTerminatorWhole(message);
  }

  /** The same on whole files: when encoding a file succeeds, the file it
      writes has the input's length and its first 54 bytes, and decoding that
      file gives the message up to its first zero character. */
  lemma FileRoundTrip(file: seq<Byte>, message: seq<Byte>)
    ensures var r := Encoded(ReadHeader(file), ReadPixels(file), message);
      r.Success? ==>
        |Written(r.value)| == |file| &&
        Written(r.value)[..HeaderSize] == file[..HeaderSize] &&
        Decoded(ReadPixels(Written(r.value))) == UpToTerminator(message)
  {
    var r := Encoded(ReadHeader(file), ReadPixels(file), message);
    if r.Success? {
      assert |file| > HeaderSize;
      assert ReadPixels(Written(r.value)) == r.value.pixels;
      EncodeThenDecode(ReadHeader(file), ReadPixels(file), message);
    }
  }
}
