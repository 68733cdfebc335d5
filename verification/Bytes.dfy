/** Byte strings and their big-endian integer value (OS2IP and I2OSP of RFC 8017, section 4). */
module Bytes {
  import opened Arithmetic
  import opened Bits

  type Byte = b: nat | b < 256
  type Bytes = seq<Byte>

  function Zeros(n: nat): (z: Bytes)
    ensures |z| == n && forall i :: 0 <= i < n ==> z[i] == 0
  {
    seq(n, _ => 0)
  }

  /** The bytes of a Go string; every character of a model string stands for one byte. */
  function FromString(s: string): (b: Bytes)
    ensures |b| == |s|
  {
    seq(|s|, i requires 0 <= i < |s| => s[i] as int % 256)
  }

  /** big.Int.SetBytes and the widget's bytesToBigInt: the unsigned big-endian value. */
  function OS2IP(b: Bytes): nat {
    if b == [] then 0 else OS2IP(b[..|b| - 1]) * 256 + b[|b| - 1]
  }

  /** big.Int.FillBytes into a buffer of len bytes. FillBytes panics unless n fits. */
  function I2OSP(n: nat, len: nat): (b: Bytes)
    ensures |b| == len
    decreases len
  {
    if len == 0 then [] else I2OSP(n / 256, len - 1) + [n % 256]
  }

  lemma {:induction false} OS2IPBound(b: Bytes)
    ensures OS2IP(b) < Pow(256, |b|)
  {
    if b == [] {
    } else {
      OS2IPBound(b[..|b| - 1]);
    }
  }

  lemma {:induction false} OS2IPAppend(front: Bytes, last: Byte)
    ensures OS2IP(front + [last]) == OS2IP(front) * 256 + last
  {
    assert (front + [last])[..|front|] == front;
  }

  lemma {:induction false} DivBound(n: nat, w: nat)
    requires n < 256 * w
    ensures n / 256 < w
  {
  }

  /** Decoding is a left inverse of encoding exactly on the integers that fit. */
  lemma {:induction false} DecodeEncode(n: nat, len: nat)
    ensures OS2IP(I2OSP(n, len)) == n <==> n < Pow(256, len)
    decreases len
  {
    if n >= Pow(256, len) {
      OS2IPBound(I2OSP(n, len));
    } else if len == 0 {
    } else {
      var front, last := I2OSP(n / 256, len - 1), n % 256;
      DivBound(n, Pow(256, len - 1));
      DecodeEncode(n / 256, len - 1);
      OS2IPAppend(front, last);
      assert n == (n / 256) * 256 + n % 256;
    }
  }

  /** Encoding is a left inverse of decoding on every byte string. */
  lemma {:induction false} EncodeDecode(b: Bytes)
    ensures I2OSP(OS2IP(b), |b|) == b
  {
    if b == [] {
    } else {
      var front := b[..|b| - 1];
      var n := OS2IP(b);
      EncodeDecode(front);
      ModUnique(n, 256, OS2IP(front), b[|b| - 1]);
      assert b == front + [b[|b| - 1]];
    }
  }

  lemma {:induction false} OS2IPConcat(a: Bytes, b: Bytes)
    ensures OS2IP(a + b) == OS2IP(a) * Pow(256, |b|) + OS2IP(b)
  {
    if b == [] {
      assert a + b == a;
    } else {
      var front := b[..|b| - 1];
      OS2IPConcat(a, front);
      assert (a + b)[..|a + b| - 1] == a + front;
      assert OS2IP(a) * Pow(256, |b|) == (OS2IP(a) * Pow(256, |front|)) * 256 by {
        MulRearrange(OS2IP(a), Pow(256, |front|), 256);
      }
    }
  }

  lemma {:induction false} OS2IPHead(b: Bytes)
    requires b != []
    ensures OS2IP(b) == b[0] * Pow(256, |b| - 1) + OS2IP(b[1..])
  {
    OS2IPConcat(b[..1], b[1..]);
    assert b == b[..1] + b[1..];
    assert b[..1] == [b[0]];
    assert OS2IP([b[0]]) == b[0] by { assert [b[0]][..0] == []; }
  }

  /** The value is below 2^(8*len - t) exactly if the first byte is below 2^(8 - t). */
  lemma {:induction false} ValueBoundByHead(b: Bytes, t: nat)
    requires b != [] && t <= 8
    ensures b[0] < Pow(2, 8 - t) <==> OS2IP(b) < Pow(2, 8 * |b| - t)
  {
    var h, low, w := b[0], OS2IP(b[1..]), Pow(256, |b| - 1);
    OS2IPHead(b);
    OS2IPBound(b[1..]);
    Pow256(|b| - 1);
    PowAdd(2, 8 - t, 8 * (|b| - 1));
    var top := Pow(2, 8 - t);
    assert Pow(2, 8 * |b| - t) == top * w by { assert 8 - t + 8 * (|b| - 1) == 8 * |b| - t; }
    DigitCompare(h, low, top, w);
  }

  lemma {:induction false} DigitCompare(h: int, low: int, top: int, w: int)
    requires 0 <= low < w
    ensures h < top <==> h * w + low < top * w
  {
    if h < top {
      assert (h + 1) * w <= top * w;
    } else {
      assert h * w >= top * w;
    }
  }

  /** The lowest bit of the value is the lowest bit of the last byte. */
  lemma {:induction false} ParityOfLast(b: Bytes)
    requires b != []
    ensures OS2IP(b) % 2 == b[|b| - 1] % 2
  {
    EvenPlus(OS2IP(b[..|b| - 1]), b[|b| - 1]);
  }

  lemma {:induction false} EvenPlus(x: int, y: int)
    ensures (x * 256 + y) % 2 == y % 2
  {
  }

  // ----- XOR and the masks that drop leading bits

  function XorByte(a: Byte, b: Byte): Byte {
    ByteWidth();
    XorFits(a, b, 8);
    BitXor(a, b)
  }

  lemma {:induction false} ByteWidth()
    ensures Pow(2, 8) == 256
  {
    assert Pow(2, 4) == 16;
    PowAdd(2, 4, 4);
  }

  function Xor(a: Bytes, b: Bytes): (c: Bytes)
    requires |a| <= |b|
    ensures |c| == |a|
  {
    seq(|a|, i requires 0 <= i < |a| => XorByte(a[i], b[i]))
  }

  lemma {:induction false} XorInvolution(a: Bytes, m: Bytes)
    requires |a| == |m|
    ensures Xor(Xor(a, m), m) == a
  {
    forall i | 0 <= i < |a|
      ensures XorByte(XorByte(a[i], m[i]), m[i]) == a[i]
    {
      XorTwice(a[i], m[i]);
    }
  }

  /** The byte that keeps the low 8 - t bits. */
  function KeepMask(t: nat): Byte
    requires t <= 7
  {
    MaskRange(t);
    Pow(2, 8 - t) - 1
  }

  /** The byte that keeps the high t bits. */
  function HighMask(t: nat): Byte
    requires t <= 7
  {
    MaskRange(t);
    256 - Pow(2, 8 - t)
  }

  lemma {:induction false} MaskRange(t: nat)
    requires t <= 7
    ensures 1 < Pow(2, 8 - t) <= 256
  {
    ByteWidth();
    PowMonotone(2, 1, 8 - t);
    PowMonotone(2, 8 - t, 8);
    assert Pow(2, 1) == 2;
  }

  /** The masks are the bytes 0xFF >> t and 0xFF << (8 - t) that the source writes; what is
      shifted out of a byte is lost. */
  lemma {:induction false} MasksAreShifts(t: nat)
    requires t <= 7
    ensures Pow(2, t) > 0 && KeepMask(t) == 0xFF / Pow(2, t)
    ensures HighMask(t) == (0xFF * Pow(2, 8 - t)) % 256
  {
    ByteWidth();
    var p, q := Pow(2, t), Pow(2, 8 - t);
    PowPositive(2, t);
    MaskRange(t);
    PowAdd(2, t, 8 - t);
    assert 0xFF == p * (q - 1) + (p - 1) by { assert p * (q - 1) == p * q - p; }
    ModUnique(0xFF, p, q - 1, p - 1);
    assert 0xFF * q == 256 * (q - 1) + (256 - q);
    ModUnique(0xFF * q, 256, q - 1, 256 - q);
  }

  /** The high t bits of a byte are zero exactly if it is below 2^(8 - t), exactly if the
      low mask leaves it alone. */
  lemma {:induction false} HighBitsZero(a: Byte, t: nat)
    requires t <= 7
    ensures BitAnd(a, HighMask(t)) == 0 <==> a < Pow(2, 8 - t)
    ensures BitAnd(a, HighMask(t)) == 0 <==> BitAnd(a, KeepMask(t)) == a
  {
    HighBits(a, t);
    LowBits(a, t);
    SmallRemainder(a, Pow(2, 8 - t));
  }

  lemma {:induction false} HighBits(a: Byte, t: nat)
    requires t <= 7
    ensures Pow(2, 8 - t) > 0 && BitAnd(a, HighMask(t)) == a - a % Pow(2, 8 - t)
  {
    ByteWidth();
    AndHigh(a, 8 - t, 8);
  }

  lemma {:induction false} LowBits(a: Byte, t: nat)
    requires t <= 7
    ensures Pow(2, 8 - t) > 0 && BitAnd(a, KeepMask(t)) == a % Pow(2, 8 - t)
  {
    AndLow(a, 8 - t);
  }

  lemma {:induction false} SmallRemainder(a: nat, q: nat)
    requires q > 0
    ensures a % q == a <==> a < q
  {
    if a < q { ModUnique(a, q, 0, a); }
  }

  /** XOR with a mask of the same length, keeping of the first byte only the bits in keep. */
  function Mask(b: Bytes, mask: Bytes, keep: Byte): (c: Bytes)
    requires b != [] && |b| == |mask|
    ensures |c| == |b| && BitAnd(c[0], keep) == c[0]
  {
    AndTwice(XorByte(b[0], mask[0]), keep);
    [BitAnd(XorByte(b[0], mask[0]), keep)] + Xor(b[1..], mask[1..])
  }

  /** Masking is its own inverse on byte strings whose first byte keeps all its bits. */
  lemma {:induction false} MaskTwice(b: Bytes, mask: Bytes, keep: Byte)
    requires b != [] && |b| == |mask| && BitAnd(b[0], keep) == b[0]
    ensures Mask(Mask(b, mask, keep), mask, keep) == b
  {
    var c := Mask(b, mask, keep);
    MaskedXorTwice(b[0], mask[0], keep);
    assert c[1..] == Xor(b[1..], mask[1..]);
    XorInvolution(b[1..], mask[1..]);
    assert Mask(c, mask, keep) == [b[0]] + b[1..];
  }
}
