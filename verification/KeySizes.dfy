/** For which key sizes exponent derivation can fail: exactly those in which a derived
    exponent has room to hit half a safe prime. */
module KeySizes {
  import opened Wrappers
  import opened Arithmetic
  import opened NumberTheory
  import opened Bits
  import opened Bytes
  import opened HashSuite
  import opened Rsapbssa
  import opened RsapbssaTheorems

  // ----- hash functions that lead to a chosen exponent

  /** Bytes 48*b to 48*b + 47 of target, filled up with zeros. */
  function BlockOf(target: Bytes, b: nat): Digest384 {
    seq(48, i requires 0 <= i < 48 => if 48 * b + i < |target| then target[48 * b + i] else 0)
  }

  /** HMAC-SHA384 reads the counter of HKDF-Expand, the last byte of the message, and
      returns that block of target. */
  function ChosenSuite(target: Bytes): Suite {
    Suite(_ => Zeros(32), _ => Zeros(48), (_, _) => Zeros(32),
          (_, m: Bytes) => if m == [] || m[|m| - 1] == 0 then Zeros(48) else BlockOf(target, m[|m| - 1] - 1),
          (_, _, _, _) => Zeros(32))
  }

  lemma {:induction false} ChosenBlock(target: Bytes, prk: Bytes, info: Bytes, i: nat)
    requires 0 < i <= 255
    ensures HkdfT(ChosenSuite(target), prk, info, i) == BlockOf(target, i - 1)
  {
    var m := HkdfT(ChosenSuite(target), prk, info, i - 1) + info + [i % 256];
    assert i % 256 == i;
    assert m[|m| - 1] == i;
  }

  /** HKDF-Expand with such hash functions returns the target. */
  lemma {:induction false} ChosenStream(target: Bytes, prk: Bytes, info: Bytes, length: nat)
    requires |target| <= length <= HKDF_LIMIT
    ensures HkdfExpand(ChosenSuite(target), prk, info, length)[..|target|] == target
  {
    forall j | 0 <= j < |target|
      ensures HkdfExpand(ChosenSuite(target), prk, info, length)[j] == target[j]
    {
      ChosenByte(target, prk, info, length, j);
    }
  }

  lemma {:induction false} ChosenByte(target: Bytes, prk: Bytes, info: Bytes, length: nat, j: nat)
    requires j < |target| <= length <= HKDF_LIMIT
    ensures HkdfExpand(ChosenSuite(target), prk, info, length)[j] == target[j]
  {
    StreamByte(HkdfBlock(ChosenSuite(target), prk, info), length, j);
    ChosenBlock(target, prk, info, j / 48 + 1);
    ByteOfBlock(target, j, j / 48, j % 48);
  }

  lemma {:induction false} ByteOfBlock(target: Bytes, j: nat, b: nat, i: nat)
    requires j < |target| && i < 48 && j == 48 * b + i
    ensures BlockOf(target, b)[i] == target[j]
  {
  }

  /** Clamping leaves an odd number alone that has its two top bits clear. */
  lemma {:induction false} ClampLeaves(expanded: Bytes, target: Bytes)
    requires 0 < |target| <= |expanded| && expanded[..|target|] == target
    requires target[0] < 64 && target[|target| - 1] % 2 == 1
    ensures Clamp(expanded, |target|)[..|target|] == target
  {
    var last := |target| - 1;
    assert expanded[0] == target[0] && expanded[last] == target[last];
    SixBits(target[0]);
    LowBitSet(target[last]);
  }

  lemma {:induction false} SixBits(a: Byte)
    requires a < 64
    ensures BitAnd(a, 0x3F) == a
  {
    assert Pow(2, 6) == 64;
    AndAll(a, 6);
  }

  /** Every odd number below the bound is derived, for some hash functions, from any metadata:
      the shape of derived exponents cannot be narrowed. */
  lemma {:induction false} AnyOddExponent(n: nat, info: Bytes, e: nat)
    requires UsableModulus(n) && LambdaLen(n) + 16 <= HKDF_LIMIT && e % 2 == 1 && e < ExponentBound(n)
    ensures DerivePublicExponent(ChosenSuite(I2OSP(e, LambdaLen(n))), n, info) == Ok(e)
  {
    ModulusLenBounds(n);
    var lambdaLen := LambdaLen(n);
    var target := I2OSP(e, lambdaLen);
    TargetShape(e, lambdaLen);
    var prk := HkdfExtract(ChosenSuite(target), DerivationInput(info), I2OSP(n, ModulusLen(n)));
    ChosenStream(target, prk, FromString("PBRSA"), lambdaLen + 16);
    ClampLeaves(HkdfExpand(ChosenSuite(target), prk, FromString("PBRSA"), lambdaLen + 16), target);
  }

  lemma {:induction false} TargetShape(e: nat, len: nat)
    requires len > 0 && e % 2 == 1 && e < Pow(2, 8 * len - 2)
    ensures var target := I2OSP(e, len);
      OS2IP(target) == e && target[0] < 64 && target[len - 1] % 2 == 1
  {
    Pow256(len);
    PowMonotone(2, 8 * len - 2, 8 * len);
    DecodeEncode(e, len);
    ParityOfLast(I2OSP(e, len));
    assert Pow(2, 6) == 64;
    ValueBoundByHead(I2OSP(e, len), 2);
  }

  // ----- generated keys

  /** In the other sizes half of each prime is itself an exponent that can be derived. */
  lemma {:induction false} HalfIsExponent(kp: KeyPair)
    requires GeneratedKey(kp) && 8 * LambdaLen(kp.N) > BitLen(kp.N) / 2
    ensures (kp.P - 1) / 2 % 2 == 1 && (kp.P - 1) / 2 < ExponentBound(kp.N)
  {
    ModulusLenBounds(kp.N);
    HalfBelow((kp.P - 1) / 2, BitLen(kp.N) / 2, LambdaLen(kp.N));
    HalfIsOdd((kp.P - 1) / 2, kp.N);
  }

  lemma {:induction false} HalfBelow(half: nat, h: nat, lambdaLen: nat)
    requires lambdaLen >= 1 && BitLen(half) == h - 1 && 8 * lambdaLen > h
    ensures half < Pow(2, 8 * lambdaLen - 2)
  {
    BitLenBounds(half);
    PowMonotone(2, h - 1, 8 * lambdaLen - 2);
  }

  lemma {:induction false} HalfIsOdd(half: nat, n: nat)
    requires IsPrime(half) && UsableModulus(n) && BitLen(half) == BitLen(n) / 2 - 1
    ensures half % 2 == 1
  {
    NineBits(n);
    EvenPrime(half);
  }

  lemma {:induction false} EvenPrime(p: nat)
    requires IsPrime(p)
    ensures p % 2 == 0 ==> p == 2
  {
    if p > 2 { assert !Divides(2, p); }
  }

  lemma {:induction false} NineBits(n: nat)
    requires n >= 256
    ensures BitLen(n) >= 9 && BitLen(2) == 2
  {
    ByteWidth();
    BitLenBounds(n);
    if BitLen(n) <= 8 {
      PowMonotone(2, BitLen(n), 8);
    }
  }

  lemma {:induction false} HalfDividesPhi(p: nat, q: nat)
    requires p % 2 == 1 && p > 2 && q >= 1
    ensures Divides((p - 1) / 2, (p - 1) * (q - 1))
  {
    var half := (p - 1) / 2;
    assert p - 1 == half * 2;
    MulRearrange(half, 2, q - 1);
    DividesIntro(half, 2 * (q - 1), (p - 1) * (q - 1));
  }

  /** A number that shares a factor with the modulus has no inverse. */
  lemma {:induction false} NoInverse(e: nat, n: nat)
    requires 1 < e && n > 0 && Divides(e, n)
    ensures ModInverse(e, n).None?
  {
    DividesBound(e, n);
    ModInverseSpec(e, n);
    if e == n {
      ModUnique(e, n, 1, 0);
      DividesIntro(e, 0, 0);
    } else {
      ModUnique(e, n, 0, e);
      DividesIntro(e, 1, e);
    }
    GcdIsGreatest(e % n, n, e);
  }

  lemma {:induction false} HalfHasNoInverse(kp: KeyPair)
    requires RsaKey(kp) && SafePrime(kp.P)
    ensures kp.Phi > 0 && ModInverse((kp.P - 1) / 2, kp.Phi).None?
  {
    PhiBounds(kp);
    HalfDividesPhi(kp.P, kp.Q);
    NoInverse((kp.P - 1) / 2, kp.Phi);
  }

  /** In a size whose half is 5, 6 or 7 above a multiple of 8, every generated key has hash
      functions for which derivation fails, whatever the metadata is. */
  lemma {:induction false} DerivationCanFail(kp: KeyPair, info: Bytes) returns (suite: Suite)
    requires GeneratedKey(kp) && (BitLen(kp.N) / 2) % 8 > 4
    ensures kp.Phi > 0 && DeriveKeyPair(suite, kp, info).Err?
    ensures LambdaLen(kp.N) + 16 <= HKDF_LIMIT ==> DeriveKeyPair(suite, kp, info) == Err(ErrNotCoprime)
  {
    GeneratedKeyIsSafe(kp);
    PhiBounds(kp);
    HalfIsExponent(kp);
    var half := (kp.P - 1) / 2;
    suite := ChosenSuite(I2OSP(half, LambdaLen(kp.N)));
    if LambdaLen(kp.N) + 16 <= HKDF_LIMIT {
      AnyOddExponent(kp.N, info, half);
      HalfHasNoInverse(kp);
    }
  }

  lemma {:induction false} Safe6599()
    ensures SafePrime(6599)
  {
    SmallSafePrime(6599);
  }

  lemma {:induction false} Safe6659()
    ensures SafePrime(6659)
  {
    SmallSafePrime(6659);
  }

  /** Such keys exist: 6599 and 6659 are safe primes, and their halves 3299 and 3329 have the
      two top bits set that a random prime is drawn with. */
  lemma {:induction false} ExposedKeysExist() returns (kp: KeyPair)
    ensures GeneratedKey(kp) && (BitLen(kp.N) / 2) % 8 == 5
  {
    kp := KeyPair(43942741, 65537, 6676193, 6599, 6659, 43929484);
    ExposedKey(kp);
  }

  lemma {:induction false} ExposedKey(kp: KeyPair)
    requires kp.P == 6599 && kp.Q == 6659 && kp.N == 43942741 && kp.Phi == 43929484
    ensures GeneratedKey(kp) && (BitLen(kp.N) / 2) % 8 == 5
  {
    ExposedSizes(kp);
    Safe6599();
    Safe6659();
    KeyOfSafePrimes(kp, 12);
  }

  lemma {:induction false} ExposedSizes(kp: KeyPair)
    requires kp.P == 6599 && kp.Q == 6659 && kp.N == 43942741
    ensures kp.N == kp.P * kp.Q && BitLen(kp.N) == 26
    ensures BitLen((kp.P - 1) / 2) == 12 && BitLen((kp.Q - 1) / 2) == 12
  {
    ByteWidth();
    assert Pow(2, 4) == 16;
    PowAdd(2, 8, 4);
    PowAdd(2, 12, 12);
    BitLenUnique((kp.P - 1) / 2, 12);
    BitLenUnique((kp.Q - 1) / 2, 12);
    BitLenUnique(kp.N, 26);
  }

  /** Derivation succeeds for all hash functions exactly for the sizes whose half is at most
      4 above a multiple of 8 and for which HKDF can stretch far enough. */
  lemma {:induction false} DerivationTotalExactly(kp: KeyPair, info: Bytes)
    requires GeneratedKey(kp)
    ensures kp.Phi > 0
    ensures (forall suite: Suite :: DeriveKeyPair(suite, kp, info).Ok?) <==>
      (BitLen(kp.N) / 2) % 8 <= 4 && LambdaLen(kp.N) + 16 <= HKDF_LIMIT
  {
    PhiBounds(kp);
    if (BitLen(kp.N) / 2) % 8 > 4 {
      var suite := DerivationCanFail(kp, info);
      assert !DeriveKeyPair(suite, kp, info).Ok?;
    } else {
      GeneratedKeyIsSafe(kp);
      forall suite: Suite
        ensures DeriveKeyPair(suite, kp, info).Ok? <==> LambdaLen(kp.N) + 16 <= HKDF_LIMIT
      {
        DeriveKeyPairTotal(suite, kp, info);
      }
      assert DeriveKeyPair(ChosenSuite([]), kp, info).Ok? <==> LambdaLen(kp.N) + 16 <= HKDF_LIMIT;
    }
  }
}
