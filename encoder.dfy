/** The encoder, `encode_message_in_bmp` (steganography-cw-sem1.py:1-39),
    with the file reads and writes lifted out: it takes the 54-byte header
    and the pixel bytes that follow it, and returns the header and the new
    pixel bytes that the source writes to the output file, or the error it
    raises. */
module Encoder {
  import opened Bits

  /** The end-of-message marker `'\0'` appended to every message. */
  const Terminator: Byte := 0

  /** The two bytes a BMP header must start with, `b'BM'`. */
  const TagB: Byte := 0x42
  const TagM: Byte := 0x4D

  /** The two `ValueError`s the encoder raises. */
  datatype EncodeError =
    | NotBmp         // "not a valid BMP file."
    | MessageTooBig  // "this message is too big to hide in this BMP image."

  datatype Result<T> = Success(value: T) | Failure(error: EncodeError)

  /** What the encoder writes to the output file: the header, then the pixels. */
  datatype Stego = Stego(header: seq<Byte>, pixels: seq<Byte>)

  /** `header[:2] == b'BM'`; a header shorter than two bytes never matches. */
  predicate HasBmpTag(header: seq<Byte>)
  {
    |header| >= 2 && header[0] == TagB && header[1] == TagM
  }

  /** Bits needed to hide a message of `length` characters with its terminator. */
  function RequiredBits(length: nat): nat
  {
    8 * (length + 1)
  }

  /** The bitstream of lines 6-8: the message, then the terminator, each
      character as eight bits, most significant first. */
  function MessageBits(message: seq<Byte>): (bits: seq<Bit>)
    ensures |bits| == RequiredBits(|message|)
  {
    BytesToBits(message + [Terminator])
  }

  /** Bit `i` of the bitstream is bit `7 - i % 8` (counting from the least
      significant) of character `i / 8` of the message, the terminator being
      character `|message|`; so the last eight bits are all zero. */
  lemma MessageBitsAt(message: seq<Byte>, i: nat)
    requires i < RequiredBits(|message|)
    ensures MessageBits(message)[i] == ((message + [Terminator])[i / 8] / Pow2(7 - i % 8)) % 2
    ensures i >= 8 * |message| ==> MessageBits(message)[i] == 0
  {
    var framed := message + [Terminator];
    var k, j := i / 8, i % 8;
    assert i == 8 * k + j && j < 8 && k < |framed|;
    BytesToBitsAt(framed, k);
    assert MessageBits(message)[i] == BytesToBits(framed)[8 * k .. 8 * k + 8][j];
    ToBitsAt(framed[k], 8, j);
    if i >= 8 * |message| {
      assert framed[k] == 0;
    }
  }

  /** The pixel bytes after the embedding loop has run to completion or run
      out of bits: byte `i` takes bit `i` as its low bit while bits remain, and
      the rest are left alone. */
  function Embed(pixels: seq<Byte>, bits: seq<Bit>): (out: seq<Byte>)
    ensures |out| == |pixels|
  {
    if pixels == [] || bits == [] then pixels
    else [SetLowBit(pixels[0], bits[0])] + Embed(pixels[1..], bits[1..])
  }

  lemma {:induction false} EmbedAt(pixels: seq<Byte>, bits: seq<Bit>, i: nat)
    requires i < |pixels|
    ensures Embed(pixels, bits)[i] == if i < |bits| then SetLowBit(pixels[i], bits[i]) else pixels[i]
  {
    if bits != [] && i > 0 {
      EmbedAt(pixels[1..], bits[1..], i - 1);
    }
  }

  /** What the encoder produces, with the two checks it makes: the header tag
      first, then whether every bit found a pixel byte. */
  function Encoded(header: seq<Byte>, pixels: seq<Byte>, message: seq<Byte>): (r: Result<Stego>)
    ensures r == Failure(NotBmp) <==> !HasBmpTag(header)
    ensures r == Failure(MessageTooBig) <==> HasBmpTag(header) && |pixels| < RequiredBits(|message|)
    ensures r.Success? <==> HasBmpTag(header) && RequiredBits(|message|) <= |pixels|
    ensures r.Success? ==> r.value.header == header && |r.value.pixels| == |pixels|
  {
    var bits := MessageBits(message);
    if !HasBmpTag(header) then Failure(NotBmp)
    else if |pixels| < |bits| then Failure(MessageTooBig)
    else Success(Stego(header, Embed(pixels, bits)))
  }

  /** On success, pixel byte `i` is `(pixels[i] & 0xFE) | bits[i]` while bits
      remain: its upper seven bits are unchanged and its low bit is bit `i` of
      the bitstream. Every byte past the bitstream is unchanged. */
  lemma EncodedPixelAt(header: seq<Byte>, pixels: seq<Byte>, message: seq<Byte>, i: nat)
    requires Encoded(header, pixels, message).Success?
    requires i < |pixels|
    ensures var out := Encoded(header, pixels, message).value.pixels;
      if i < RequiredBits(|message|) then
        out[i] == SetLowBit(pixels[i], MessageBits(message)[i]) &&
        out[i] / 2 == pixels[i] / 2 && LowBit(out[i]) == MessageBits(message)[i]
      else
        out[i] == pixels[i]
  {
    EmbedAt(pixels, MessageBits(message), i);
  }

  /** The encoder as the source runs it: copy the pixel bytes into a mutable
      buffer, overwrite low bits one byte at a time until the bits run out,
      and only afterwards check that every bit was written. Nothing is
      returned for writing when either check fails. */
  method Encode(header: seq<Byte>, pixels: seq<Byte>, message: seq<Byte>) returns (r: Result<Stego>)
    ensures r == Encoded(header, pixels, message)
  {
    var messageBits := MessageBits(message);
    if !HasBmpTag(header) {
      return Failure(NotBmp);
    }
    var pixelData := new Byte[|pixels|](k requires 0 <= k < |pixels| => pixels[k]);

    var bitIndex := 0;
    for i := 0 to pixelData.Length
      invariant bitIndex == i <= |messageBits|
      invariant forall k :: 0 <= k < i ==> pixelData[k] == SetLowBit(pixels[k], messageBits[k])
      invariant forall k :: i <= k < pixelData.Length ==> pixelData[k] == pixels[k]
    {
      if bitIndex < |messageBits| {
        pixelData[i] := SetLowBit(pixelData[i], messageBits[bitIndex]);
        bitIndex := bitIndex + 1;
      } else {
        break;
      }
    }

    if bitIndex < |messageBits| {
      return Failure(MessageTooBig);
    }
    assert |messageBits| <= |pixels|;
    forall k | 0 <= k < pixelData.Length
      ensures pixelData[k] == Embed(pixels, messageBits)[k]
    {
      EmbedAt(pixels, messageBits, k);
    }
    assert pixelData[..] == Embed(pixels, messageBits);
    return Success(Stego(header, pixelData[..]));
  }
}
