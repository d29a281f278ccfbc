/** The decoder, `decode_message_from_bmp` (steganography-cw-sem1.py:41-66),
    with the file read lifted out: it takes the pixel bytes found after the
    54-byte header. It never looks at the header, so it makes no `BM` check,
    and it never fails. */
module Decoder {
  import opened Bits

  /** `[byte & 1 for byte in pixel_data]`: one bit per pixel byte. */
  function LowBits(pixels: seq<Byte>): seq<Bit>
  {
    seq(|pixels|, i requires 0 <= i < |pixels| => LowBit(pixels[i]))
  }

  /** How many groups `range(0, n, 8)` visits: ceil(n / 8). */
  function GroupCount(n: nat): nat
  {
    (n + 7) / 8
  }

  /** A group of at most eight bits reads as a value below 256. */
  lemma GroupFits(group: seq<Bit>)
    requires |group| <= 8
    ensures BitsToValue(group) < 256
  {
    Pow2Monotone(|group|, 8);
  }

  /** `int(''.join(map(str, bits[8*k : 8*k+8])), 2)`: the value of group `k`.
      The last group may hold fewer than eight bits and is then read as the
      smaller number its bits spell. */
  function GroupValue(bits: seq<Bit>, k: nat): Byte
    requires k < GroupCount(|bits|)
  {
    var end := if 8 * k + 8 <= |bits| then 8 * k + 8 else |bits|;
    GroupFits(bits[8 * k .. end]);
    BitsToValue(bits[8 * k .. end])
  }

  /** The characters the second loop collects: group values in order, up to
      but excluding the first group that reads as 0, or up to the end. */
  function DecodeBits(bits: seq<Bit>): (chars: seq<Byte>)
    ensures 0 !in chars
    ensures |chars| <= GroupCount(|bits|)
    decreases |bits|
  {
    if bits == [] then []
    else
      var n := if |bits| < 8 then |bits| else 8;
      GroupFits(bits[..n]);
      var c: Byte := BitsToValue(bits[..n]);
      if c == 0 then [] else [c] + DecodeBits(bits[n..])
  }

  /** One step of the second loop: the bits from position `i` on decode to the
      value of the group at `i` followed by the decoding of the bits after that
      group, or to nothing when that group reads as 0. */
  lemma DecodeBitsStep(bits: seq<Bit>, i: nat)
    requires i < |bits|
    ensures var end := if i + 8 <= |bits| then i + 8 else |bits|;
      BitsToValue(bits[i..end]) < 256 &&
      DecodeBits(bits[i..]) ==
        if BitsToValue(bits[i..end]) == 0 then []
        else [BitsToValue(bits[i..end])] + DecodeBits(if i + 8 <= |bits| then bits[i + 8..] else [])
  {
    var end := if i + 8 <= |bits| then i + 8 else |bits|;
    GroupFits(bits[i..end]);
    assert bits[i..][..end - i] == bits[i..end];
    assert bits[i..][end - i..] == if i + 8 <= |bits| then bits[i + 8..] else [];
  }

  /** Concatenation regroups freely. */
  lemma AppendAssoc(a: seq<Byte>, b: seq<Byte>, c: seq<Byte>)
    ensures a + (b + c) == (a + b) + c
  {
  }

  /** Group `k + 1` of a stream is group `k` of the stream without its first eight bits. */
  lemma GroupValueShift(bits: seq<Bit>, k: nat)
    requires |bits| > 8 && k < GroupCount(|bits| - 8)
    ensures k + 1 < GroupCount(|bits|)
    ensures GroupValue(bits[8..], k) == GroupValue(bits, k + 1)
  {
    var end := if 8 * k + 8 <= |bits| - 8 then 8 * k + 8 else |bits| - 8;
    assert bits[8..][8 * k .. end] == bits[8 * k + 8 .. end + 8];
  }

  /** A stream longer than one group whose first group is not 0 decodes to
      that group's value followed by the decoding of the remaining bits. */
  lemma DecodeBitsUnfold(bits: seq<Bit>)
    requires |bits| > 8 && GroupValue(bits, 0) != 0
    ensures DecodeBits(bits) == [GroupValue(bits, 0)] + DecodeBits(bits[8..])
    ensures GroupCount(|bits|) == GroupCount(|bits| - 8) + 1
  {
  }

  /** Character `k` of the decoded stream is the value of bit group `k`. */
  lemma {:induction false} DecodeBitsAt(bits: seq<Bit>, k: nat)
    requires k < |DecodeBits(bits)|
    ensures k < GroupCount(|bits|) && DecodeBits(bits)[k] == GroupValue(bits, k)
  {
    var n := if |bits| < 8 then |bits| else 8;
    assert GroupValue(bits, 0) == BitsToValue(bits[..n]);
    if k > 0 {
      DecodeBitsUnfold(bits);
      DecodeBitsAt(bits[8..], k - 1);
      GroupValueShift(bits, k - 1);
    }
  }

  /** Decoding stops early only at a group that reads as 0: when fewer
      characters than groups come out, the group right after them is 0. */
  lemma {:induction false} DecodeBitsStop(bits: seq<Bit>)
    requires |DecodeBits(bits)| < GroupCount(|bits|)
    ensures GroupValue(bits, |DecodeBits(bits)|) == 0
  {
    var n := if |bits| < 8 then |bits| else 8;
    assert GroupValue(bits, 0) == BitsToValue(bits[..n]);
    if GroupValue(bits, 0) == 0 {
      return;
    }
    if |bits| <= 8 {
      assert false;
    }
    DecodeBitsUnfold(bits);
    DecodeBitsStop(bits[8..]);
    GroupValueShift(bits, |DecodeBits(bits[8..])|);
  }

  /** The decoded characters are exactly the values of the groups before the
      first group whose value is 0: each one is that group's value, and either
      every group was read or the next group reads as 0. */
  lemma DecodeBitsByGroups(bits: seq<Bit>)
    ensures var chars := DecodeBits(bits);
      (forall k :: 0 <= k < |chars| ==> chars[k] == GroupValue(bits, k)) &&
      (|chars| < GroupCount(|bits|) ==> GroupValue(bits, |chars|) == 0)
  {
    forall k | 0 <= k < |DecodeBits(bits)|
      ensures DecodeBits(bits)[k] == GroupValue(bits, k)
    {
      DecodeBitsAt(bits, k);
    }
    if |DecodeBits(bits)| < GroupCount(|bits|) {
      DecodeBitsStop(bits);
    }
  }

  /** What the decoder returns for the pixel bytes it is given. */
  function Decoded(pixels: seq<Byte>): seq<Byte>
  {
    DecodeBits(LowBits(pixels))
  }

  /** The decoder as the source runs it: collect one bit per pixel byte, then
      walk the bits eight at a time, stopping at the first group that reads
      as 0. */
  method Decode(pixelData: seq<Byte>) returns (message: seq<Byte>)
    ensures message == Decoded(pixelData)
  {
    var bits: seq<Bit> := [];
    for j := 0 to |pixelData|
      invariant |bits| == j
      invariant forall k :: 0 <= k < j ==> bits[k] == LowBit(pixelData[k])
    {
      bits := bits + [LowBit(pixelData[j])];
    }
    assert bits == LowBits(pixelData);

    var chars: seq<Byte> := [];
    var i := 0;
    while i < |bits|
      invariant 0 <= i
      invariant DecodeBits(bits) == chars + DecodeBits(if i <= |bits| then bits[i..] else [])
    {
      var end := if i + 8 <= |bits| then i + 8 else |bits|;
      var group := bits[i..end];
      DecodeBitsStep(bits, i);
      var c: Byte := BitsToValue(group);
      if c == 0 {
        break;
      }
      AppendAssoc(chars, [c], DecodeBits(if i + 8 <= |bits| then bits[i + 8..] else []));
      chars := chars + [c];
      i := i + 8;
    }
    message := chars;
  }
}
