/** Bit-level vocabulary shared by the encoder and the decoder.

    The source works on Python strings of binary digits: `f'{ord(c):08b}'`
    renders a character as eight digits, most significant first, and
    `int(digits, 2)` reads a digit string back as a number. Here those digit
    strings are sequences of `Bit`, and both conversions are arithmetic. */
module Bits {

  /** One pixel byte, or one character code (code points 0..255 only). */
  type Byte = x: int | 0 <= x < 256

  /** One binary digit. */
  type Bit = b: int | 0 <= b < 2

  function Pow2(n: nat): (p: nat)
    ensures p >= 1
  {
    if n == 0 then 1 else 2 * Pow2(n - 1)
  }

  lemma {:induction false} Pow2Monotone(m: nat, n: nat)
    requires m <= n
    ensures Pow2(m) <= Pow2(n)
  {
    if m < n {
      Pow2Monotone(m, n - 1);
    }
  }

  /** The `width` low-order binary digits of `v`, most significant first,
      padded with leading zeros: Python's `f'{v:0{width}b}'` when `v` fits. */
  function ToBits(v: nat, width: nat): (bits: seq<Bit>)
    ensures |bits| == width
  {
    if width == 0 then [] else ToBits(v / 2, width - 1) + [v % 2]
  }

  /** The number a sequence of binary digits spells, most significant first:
      Python's `int(digits, 2)`. Any length is read, including fewer than 8. */
  function BitsToValue(bits: seq<Bit>): (v: nat)
    ensures v < Pow2(|bits|)
  {
    if bits == [] then 0 else 2 * BitsToValue(bits[..|bits| - 1]) + bits[|bits| - 1]
  }

  /** Digit `j` of `ToBits(v, width)` is the bit of weight 2^(width-1-j):
      the rendering is most significant bit first. */
  lemma {:induction false} ToBitsAt(v: nat, width: nat, j: nat)
    requires j < width
    ensures ToBits(v, width)[j] == (v / Pow2(width - 1 - j)) % 2
  {
    if j < width - 1 {
      ToBitsAt(v / 2, width - 1, j);
      DivTwice(v, Pow2(width - 2 - j));
    }
  }

  lemma MulAtLeast(d: int, k: int)
    requires d > 0 && k >= 1
    ensures d * k >= d
  {
  }

  /** Division is determined by any quotient/remainder pair that fits. */
  lemma DivUnique(v: int, d: int, q: int, r: int)
    requires d > 0 && v == d * q + r && 0 <= r < d
    ensures v / d == q
  {
    var q', r' := v / d, v % d;
    assert v == d * q' + r';
    assert d * q - d * q' == r' - r;
    assert d * (q - q') == d * q - d * q';
    assert d * (q' - q) == d * q' - d * q;
    if q > q' {
      MulAtLeast(d, q - q');
    } else if q < q' {
      MulAtLeast(d, q' - q);
    }
  }

  lemma DivTwice(v: nat, p: nat)
    requires p >= 1
    ensures (v / 2) / p == v / (2 * p)
  {
    var q, r := v / 2, v % 2;
    var q2, r2 := q / p, q % p;
    assert q == p * q2 + r2;
    assert v == (2 * p) * q2 + (2 * r2 + r);
    DivUnique(v, 2 * p, q2, 2 * r2 + r);
  }

  /** Reading back a rendering gives the number, when it fits in `width` bits. */
  lemma {:induction false} BitsToValueToBits(v: nat, width: nat)
    requires v < Pow2(width)
    ensures BitsToValue(ToBits(v, width)) == v
  {
    if width > 0 {
      BitsToValueToBits(v / 2, width - 1);
      assert ToBits(v, width)[..width - 1] == ToBits(v / 2, width - 1);
    }
  }

  /** Rendering the number a digit sequence spells, at that sequence's length,
      gives the digits back. */
  lemma {:induction false} ToBitsBitsToValue(bits: seq<Bit>)
    ensures ToBits(BitsToValue(bits), |bits|) == bits
  {
    if bits != [] {
      var n := |bits| - 1;
      ToBitsBitsToValue(bits[..n]);
      assert bits == bits[..n] + [bits[n]];
    }
  }

  /** The eight digits of one character: `f'{ord(c):08b}'` for `ord(c) < 256`. */
  function ByteToBits(c: Byte): (bits: seq<Bit>)
    ensures |bits| == 8
  {
    ToBits(c, 8)
  }

  lemma ByteBitsRoundTrip(c: Byte)
    ensures |ByteToBits(c)| == 8 && BitsToValue(ByteToBits(c)) == c
  {
    BitsToValueToBits(c, 8);
  }

  /** `''.join(f'{ord(c):08b}' for c in s)`: eight digits per character, in order. */
  function BytesToBits(s: seq<Byte>): (bits: seq<Bit>)
    ensures |bits| == 8 * |s|
  {
    if s == [] then [] else ByteToBits(s[0]) + BytesToBits(s[1..])
  }

  lemma {:induction false} BytesToBitsAppend(a: seq<Byte>, b: seq<Byte>)
    ensures BytesToBits(a + b) == BytesToBits(a) + BytesToBits(b)
  {
    if a != [] {
      assert (a + b)[0] == a[0];
      assert (a + b)[1..] == a[1..] + b;
      BytesToBitsAppend(a[1..], b);
      calc {
        BytesToBits(a + b);
        ByteToBits(a[0]) + BytesToBits(a[1..] + b);
        ByteToBits(a[0]) + (BytesToBits(a[1..]) + BytesToBits(b));
        (ByteToBits(a[0]) + BytesToBits(a[1..])) + BytesToBits(b);
      }
    } else {
      assert a + b == b;
    }
  }

  /** Character `k` of `s` occupies digits 8k .. 8k+7 of the bitstream. */
  lemma {:induction false} BytesToBitsAt(s: seq<Byte>, k: nat)
    requires k < |s|
    ensures BytesToBits(s)[8 * k .. 8 * k + 8] == ByteToBits(s[k])
  {
    if k > 0 {
      BytesToBitsAt(s[1..], k - 1);
      assert BytesToBits(s)[8 * k .. 8 * k + 8] == BytesToBits(s[1..])[8 * (k - 1) .. 8 * (k - 1) + 8];
    }
  }

  /** `byte & 1`: the least significant bit of a pixel byte. */
  function LowBit(b: Byte): Bit
  {
    b % 2
  }

  /** `(byte & 0xFE) | bit`: clearing the low bit of a byte subtracts it, and
      or-ing a bit into an even byte adds it. The result keeps the upper seven
      bits of `b` and carries `bit` as its least significant bit. */
  function SetLowBit(b: Byte, bit: Bit): (r: Byte)
    ensures r / 2 == b / 2
    ensures LowBit(r) == bit
  {
    b - b % 2 + bit
  }
}
