/** Concrete runs of the codec: the two unit tests of the repository
    (unit test intro to prog.py) and a few worked cases. */
module Scenarios {
  import opened Bits
  import opened Encoder
  import opened Decoder
  import opened RoundTrip

  /** Character codes of a string whose characters are all below 256. */
  function Codes(s: string): (r: seq<Byte>)
    requires forall i :: 0 <= i < |s| ==> s[i] as int < 256
    ensures |r| == |s|
  {
    seq(|s|, i requires 0 <= i < |s| => s[i] as int)
  }

  /** The 54-byte header the unit tests write: `BM`, file size 154, pixel
      offset 54, a 40-byte DIB header for a 10 x 10 image at 24 bits per
      pixel, little-endian, zeros elsewhere. */
  function TestHeader(): seq<Byte>
  {
    [0x42, 0x4D, 154, 0, 0, 0,   // signature, file size
     0, 0, 0, 0,                 // reserved
     54, 0, 0, 0,                // offset to pixel array
     40, 0, 0, 0,                // DIB header size
     10, 0, 0, 0, 10, 0, 0, 0,   // width, height
     1, 0, 24, 0]                // planes, bits per pixel
    + seq(24, _ => 0)            // compression .. important colours
  }

  function TestMessage(): seq<Byte>
  {
    Codes("Test message for steganography!")
  }

  /** The test message has 31 characters, none of them zero. */
  lemma TestMessageFacts()
    ensures |TestMessage()| == 31 && 0 !in TestMessage()
  {
  }

  /** The test file splits back into the test header and its pixel bytes. */
  lemma TestFileLayout(pixels: seq<Byte>)
    ensures |TestHeader()| == HeaderSize && HasBmpTag(TestHeader())
    ensures ReadHeader(TestHeader() + pixels) == TestHeader()
    ensures ReadPixels(TestHeader() + pixels) == pixels
  {
    var file := TestHeader() + pixels;
    assert file[..HeaderSize] == TestHeader();
    assert file[HeaderSize..] == pixels;
  }

  /** `test_message_too_large`: 200 characters against the test image with
      its 100 pixel bytes raise the capacity error (1608 bits are needed). */
  lemma UnitTestMessageTooLarge(pixels: seq<Byte>)
    requires |pixels| == 100
    ensures var file := TestHeader() + pixels;
      Encoded(ReadHeader(file), ReadPixels(file), seq(200, _ => 0x41)) == Failure(MessageTooBig)
  {
    TestFileLayout(pixels);
  }

  /** `test_encode_decode` as written: its 31-character message needs 256
      pixel bytes, but the test image has 100, so the encoder raises the
      capacity error instead of hiding the message. */
  lemma UnitTestEncodeDecodeAsWritten(pixels: seq<Byte>)
    requires |pixels| == 100
    ensures RequiredBits(|TestMessage()|) == 256
    ensures var file := TestHeader() + pixels;
      Encoded(ReadHeader(file), ReadPixels(file), TestMessage()) == Failure(MessageTooBig)
  {
    TestFileLayout(pixels);
    TestMessageFacts();
  }

  /** `test_encode_decode` with 10 x 10 x 3 = 300 pixel bytes for the 10 x 10
      image at 24 bits per pixel that its header names (row padding aside):
      encoding succeeds, and decoding the written file gives the message
      back. */
  lemma UnitTestEncodeDecodeIntended(pixels: seq<Byte>)
    requires |pixels| == 300
    ensures var file := TestHeader() + pixels;
      var r := Encoded(ReadHeader(file), ReadPixels(file), TestMessage());
      r.Success? && Decoded(ReadPixels(Written(r.value))) == TestMessage()
  {
    var file := TestHeader() + pixels;
    TestFileLayout(pixels);
    TestMessageFacts();
    FileRoundTrip(file, TestMessage());
    UpToTerminatorWhole(TestMessage());
  }

  lemma ByteBitsH()
    ensures ByteToBits(0x48) == [0, 1, 0, 0, 1, 0, 0, 0]
  {
  }

  lemma ByteBitsI()
    ensures ByteToBits(0x69) == [0, 1, 1, 0, 1, 0, 0, 1]
  {
  }

  lemma ByteBitsTerminator()
    ensures ByteToBits(Terminator) == [0, 0, 0, 0, 0, 0, 0, 0]
  {
  }

  lemma BytesToBitsOfThree(a: Byte, b: Byte, c: Byte)
    ensures BytesToBits([a, b, c]) == ByteToBits(a) + ByteToBits(b) + ByteToBits(c)
  {
    var s := [a, b, c];
    assert s[1..] == [b, c] && s[1..][1..] == [c] && s[1..][1..][1..] == [];
    assert BytesToBits([c]) == ByteToBits(c);
    assert BytesToBits([b, c]) == ByteToBits(b) + ByteToBits(c);
  }

  /** The bitstream of "Hi": 0x48, 0x69, then the terminator 0x00, each most
      significant bit first. */
  lemma HiBits()
    ensures MessageBits([0x48, 0x69]) ==
      [0, 1, 0, 0, 1, 0, 0, 0,  0, 1, 1, 0, 1, 0, 0, 1,  0, 0, 0, 0, 0, 0, 0, 0]
  {
    assert [0x48, 0x69] + [Terminator] == [0x48, 0x69, Terminator];
    BytesToBitsOfThree(0x48, 0x69, Terminator);
    ByteBitsH();
    ByteBitsI();
    ByteBitsTerminator();
  }

  /** "Hi" in 100 bytes of 0xFF: the first 24 bytes become 0xFE or 0xFF by
      the bitstream's bit, the other 76 stay 0xFF, and decoding gives "Hi"
      back. */
  lemma HiScenario(header: seq<Byte>, pixels: seq<Byte>)
    requires HasBmpTag(header)
    requires |pixels| == 100 && forall i :: 0 <= i < 100 ==> pixels[i] == 0xFF
    ensures var r := Encoded(header, pixels, [0x48, 0x69]);
      r.Success? &&
      (forall i :: 0 <= i < 24 ==> r.value.pixels[i] as int == 0xFE + MessageBits([0x48, 0x69])[i] as int) &&
      (forall i :: 24 <= i < 100 ==> r.value.pixels[i] == 0xFF) &&
      Decoded(r.value.pixels) == [0x48, 0x69]
  {
    var message: seq<Byte> := [0x48, 0x69];
    forall i | 0 <= i < 100
      ensures var out := Encoded(header, pixels, message).value.pixels;
        (i < 24 ==> out[i] as int == 0xFE + MessageBits(message)[i] as int) && (24 <= i ==> out[i] == 0xFF)
    {
      EncodedPixelAt(header, pixels, message, i);
    }
    MessageRoundTrip(header, pixels, message);
  }

  /** A message "AB\0CD" hides all five characters, but decoding stops at the
      zero and gives "AB". */
  lemma TerminatorTruncation(header: seq<Byte>, pixels: seq<Byte>)
    requires HasBmpTag(header) && |pixels| == 100
    ensures var r := Encoded(header, pixels, [0x41, 0x42, 0, 0x43, 0x44]);
      r.Success? && Decoded(r.value.pixels) == [0x41, 0x42]
  {
    EncodeThenDecode(header, pixels, [0x41, 0x42, 0, 0x43, 0x44]);
  }
}
