/** What the signature scheme promises: signing never fails, an honest run always verifies,
    only real signatures verify, and blinding hides the message perfectly. */
module RsapbssaTheorems {
  import opened Wrappers
  import opened Arithmetic
  import opened NumberTheory
  import opened Bits
  import opened Bytes
  import opened HashSuite
  import opened Pss
  import opened Rsapbssa

  // ----- keys

  /** An RSA key pair over two distinct primes, as KeyPairFromComponents assembles it. */
  ghost predicate RsaKey(kp: KeyPair) {
    && IsPrime(kp.P) && IsPrime(kp.Q) && kp.P != kp.Q
    && kp.N == kp.P * kp.Q && kp.Phi == (kp.P - 1) * (kp.Q - 1)
    && UsableModulus(kp.N)
  }

  ghost predicate SafePrime(p: nat) {
    IsPrime(p) && p % 2 == 1 && IsPrime((p - 1) / 2)
  }

  /** An RSA key over safe primes whose halves exceed every exponent that can be derived. */
  ghost predicate SafeKey(kp: KeyPair) {
    && RsaKey(kp) && SafePrime(kp.P) && SafePrime(kp.Q)
    && var bound := ExponentBound(kp.N);
    bound <= (kp.P - 1) / 2 && bound <= (kp.Q - 1) / 2
  }

  /** The derived exponent has two bits less than lambdaLen bytes. */
  function ExponentBound(n: nat): nat
    requires UsableModulus(n)
  {
    ModulusLenBounds(n);
    PowPositive(2, 8 * LambdaLen(n) - 2);
    Pow(2, 8 * LambdaLen(n) - 2)
  }

  /** What GenerateKey returns, for whatever size in bits it was asked for. */
  ghost predicate GeneratedKey(kp: KeyPair) {
    && RsaKey(kp) && SafePrime(kp.P) && SafePrime(kp.Q)
    && BitLen((kp.P - 1) / 2) == BitLen(kp.N) / 2 - 1
    && BitLen((kp.Q - 1) / 2) == BitLen(kp.N) / 2 - 1
  }

  /** Generated keys leave room for every derived exponent, unless half the size in bits is
      5, 6 or 7 above a multiple of 8; multiples of 16 are always fine. */
  lemma {:induction false} GeneratedKeyIsSafe(kp: KeyPair)
    requires GeneratedKey(kp)
    ensures 8 * LambdaLen(kp.N) <= BitLen(kp.N) / 2 <==> (BitLen(kp.N) / 2) % 8 <= 4
    ensures (BitLen(kp.N) / 2) % 8 <= 4 ==> SafeKey(kp)
  {
    GeneratedSizeIsEven(kp);
    LambdaArithmetic(BitLen(kp.N));
    if 8 * LambdaLen(kp.N) <= BitLen(kp.N) / 2 {
      RoomyKeyIsSafe(kp);
    }
  }

  lemma {:induction false} GeneratedSizeIsEven(kp: KeyPair)
    requires GeneratedKey(kp)
    ensures BitLen(kp.N) % 2 == 0
  {
    Halved(kp.P);
    Halved(kp.Q);
    ModulusLenBounds(kp.N);
    EvenSize(kp.P, kp.Q, (kp.P - 1) / 2, (kp.Q - 1) / 2, BitLen(kp.N));
  }

  lemma {:induction false} Halved(p: nat)
    requires p % 2 == 1
    ensures p == 2 * ((p - 1) / 2) + 1
  {
  }

  lemma {:induction false} RoomyKeyIsSafe(kp: KeyPair)
    requires GeneratedKey(kp) && 8 * LambdaLen(kp.N) <= BitLen(kp.N) / 2
    ensures SafeKey(kp)
  {
    HalfAboveBound(kp.N, (kp.P - 1) / 2, BitLen(kp.N) / 2);
    HalfAboveBound(kp.N, (kp.Q - 1) / 2, BitLen(kp.N) / 2);
  }

  lemma {:induction false} HalfAboveBound(n: nat, half: nat, h: nat)
    requires UsableModulus(n) && half > 0 && BitLen(half) == h - 1 && 8 * LambdaLen(n) <= h
    ensures ExponentBound(n) <= half
  {
    ModulusLenBounds(n);
    HalfExceeds(half, h, LambdaLen(n));
  }

  lemma {:induction false} HalfExceeds(half: nat, h: nat, lambdaLen: nat)
    requires half > 0 && BitLen(half) == h - 1 && 1 <= lambdaLen && 8 * lambdaLen <= h
    ensures Pow(2, 8 * lambdaLen - 2) <= half
  {
    BitLenBounds(half);
    PowMonotone(2, 8 * lambdaLen - 2, h - 2);
  }

  lemma {:induction false} LambdaArithmetic(bits: nat)
    requires bits % 2 == 0
    ensures 8 * ((bits + 7) / 8 / 2) <= bits / 2 <==> (bits / 2) % 8 <= 4
  {
    var a, r := bits / 16, (bits / 2) % 8;
    assert bits == 16 * a + 2 * r;
    assert (bits + 7) / 8 == 2 * a + (2 * r + 7) / 8;
    assert (2 * r + 7) / 8 == if r == 0 then 0 else if r <= 4 then 1 else 2;
  }

  /** Two factors of bits/2 bits never make a product of an odd number of bits. */
  lemma {:induction false} EvenSize(p: nat, q: nat, a: nat, b: nat, bits: nat)
    requires p == 2 * a + 1 && q == 2 * b + 1 && bits >= 2 && BitLen(p * q) == bits
    requires BitLen(a) == BitLen(b) == bits / 2 - 1
    ensures bits % 2 == 0
  {
    DoubleBelow(a, bits / 2);
    DoubleBelow(b, bits / 2);
    ProductSize(p, q, bits / 2);
  }

  lemma {:induction false} DoubleBelow(half: nat, h: nat)
    requires h > 0 && BitLen(half) == h - 1
    ensures 2 * half + 1 < Pow(2, h)
  {
    BitLenBounds(half);
  }

  lemma {:induction false} ProductSize(p: nat, q: nat, h: nat)
    requires p < Pow(2, h) && q < Pow(2, h)
    ensures BitLen(p * q) <= h + h
  {
    ProductBelow(p, q, Pow(2, h), Pow(2, h));
    PowAdd(2, h, h);
    SizeAtMost(p * q, h + h);
  }

  lemma {:induction false} SizeAtMost(n: nat, k: nat)
    requires n < Pow(2, k)
    ensures BitLen(n) <= k
  {
    BitLenBounds(n);
    if n > 0 { PowStrict(2, BitLen(n) - 1, k); }
  }

  lemma {:induction false} ProductBelow(a: nat, b: nat, x: nat, y: nat)
    requires a < x && b < y
    ensures a * b < x * y
  {
    assert a * b <= a * y;
    assert a * y < x * y;
  }

  // ----- derived exponents

  lemma {:induction false} ExponentShape(suite: Suite, n: nat, info: Bytes)
    requires UsableModulus(n) && DerivePublicExponent(suite, n, info).Ok?
    ensures var e := DerivePublicExponent(suite, n, info).value; e % 2 == 1 && e < ExponentBound(n)
  {
    ModulusLenBounds(n);
    var lambdaLen := LambdaLen(n);
    var prk := HkdfExtract(suite, DerivationInput(info), I2OSP(n, ModulusLen(n)));
    var expanded := HkdfExpand(suite, prk, FromString("PBRSA"), lambdaLen + 16);
    ClampShape(expanded, lambdaLen);
  }

  lemma {:induction false} ClampShape(expanded: Bytes, lambdaLen: nat)
    requires 0 < lambdaLen <= |expanded|
    ensures var e := OS2IP(Clamp(expanded, lambdaLen)[..lambdaLen]);
      e % 2 == 1 && e < Pow(2, 8 * lambdaLen - 2)
  {
    var b := Clamp(expanded, lambdaLen)[..lambdaLen];
    LowBitSet(if lambdaLen == 1 then BitAnd(expanded[0], 0x3F) else expanded[lambdaLen - 1]);
    assert b[0] < 64 && b[lambdaLen - 1] % 2 == 1;
    ClampedHead(b);
  }

  lemma {:induction false} ClampedHead(b: Bytes)
    requires b != [] && b[0] < 64
    ensures OS2IP(b) < Pow(2, 8 * |b| - 2) && OS2IP(b) % 2 == b[|b| - 1] % 2
  {
    ParityOfLast(b);
    assert Pow(2, 6) == 64;
    ValueBoundByHead(b, 2);
  }

  lemma {:induction false} LowBitSet(a: Byte)
    ensures SetLowBit(a) == a + 1 - a % 2 && SetLowBit(a) % 2 == 1 && (a < 64 ==> SetLowBit(a) < 64)
  {
    OrOne(a);
  }

  lemma {:induction false} TwoIsPrime()
    ensures IsPrime(2)
  {
  }

  /** An odd number below a prime has no factor in common with twice that prime. */
  lemma {:induction false} CoprimeToDouble(e: nat, p: nat)
    requires IsPrime(p) && e % 2 == 1 && e < p
    ensures Coprime(e, 2 * p)
  {
    TwoIsPrime();
    PrimeCoprime(2, e);
    CoprimeSym(2, e);
    DivOfSmall(e, p);
    PrimeCoprime(p, e);
    CoprimeSym(p, e);
    CoprimeProduct(e, 2, p);
  }

  /** For a safe key every derived exponent is invertible: DeriveKeyPair fails only where
      HKDF itself gives up. */
  lemma {:induction false} DeriveKeyPairTotal(suite: Suite, kp: KeyPair, info: Bytes)
    requires SafeKey(kp)
    ensures kp.Phi > 0
    ensures DeriveKeyPair(suite, kp, info).Ok? <==> LambdaLen(kp.N) + 16 <= HKDF_LIMIT
  {
    PhiBounds(kp);
    var r := DerivePublicExponent(suite, kp.N, info);
    if r.Ok? {
      var e := r.value;
      ExponentShape(suite, kp.N, info);
      CoprimeToPhi(kp, e);
      ModInverseSpec(e, kp.Phi);
    }
  }

  lemma {:induction false} CoprimeToPhi(kp: KeyPair, e: nat)
    requires SafeKey(kp) && e % 2 == 1 && e < ExponentBound(kp.N)
    ensures kp.Phi > 0 && Coprime(e % kp.Phi, kp.Phi)
  {
    PhiBounds(kp);
    CoprimeBelowSafePrime(e, kp.P);
    CoprimeBelowSafePrime(e, kp.Q);
    CoprimeProduct(e, kp.P - 1, kp.Q - 1);
    CoprimeModulo(e, kp.Phi);
  }

  lemma {:induction false} CoprimeBelowSafePrime(e: nat, p: nat)
    requires SafePrime(p) && e % 2 == 1 && e < (p - 1) / 2
    ensures Coprime(e, p - 1)
  {
    CoprimeToDouble(e, (p - 1) / 2);
    assert 2 * ((p - 1) / 2) == p - 1;
  }

  lemma {:induction false} CoprimeModulo(a: nat, n: nat)
    requires n > 0 && Coprime(a, n)
    ensures Coprime(a % n, n)
  {
    EGcdSpec(a, n);
    var (g, s, t) := EGcd(a, n);
    BezoutModulo(a, n, s, t, a / n, a % n);
    CoprimeIntro(a % n, n, s, t + s * (a / n));
  }

  lemma {:induction false} BezoutModulo(a: int, n: int, s: int, t: int, q: int, r: int)
    requires a == n * q + r && s * a + t * n == 1
    ensures s * r + (t + s * q) * n == 1
  {
    assert s * a == s * (n * q) + s * r;
    assert (t + s * q) * n == t * n + (s * q) * n;
    MulRearrange(s, q, n);
    assert s * (n * q) == s * (q * n);
  }

  lemma {:induction false} PhiBounds(kp: KeyPair)
    requires RsaKey(kp)
    ensures kp.Phi > 1 && kp.N > 1
  {
    ProductOfDistinct(kp.P - 1, kp.Q - 1);
  }

  lemma {:induction false} ProductOfDistinct(a: nat, b: nat)
    requires a >= 1 && b >= 1 && a != b
    ensures a * b > 1
  {
    if a > 1 {
      assert a * b >= a * 1;
    } else {
      assert 1 * b == b;
    }
  }

  // ----- safe keys exist

  /** One of the primes below 83 divides p. */
  predicate HasSmallFactor(p: nat) {
    || p % 2 == 0 || p % 3 == 0 || p % 5 == 0 || p % 7 == 0 || p % 11 == 0 || p % 13 == 0
    || p % 17 == 0 || p % 19 == 0 || p % 23 == 0 || p % 29 == 0 || p % 31 == 0 || p % 37 == 0
    || p % 41 == 0 || p % 43 == 0 || p % 47 == 0 || p % 53 == 0 || p % 59 == 0 || p % 61 == 0
    || p % 67 == 0 || p % 71 == 0 || p % 73 == 0 || p % 79 == 0
  }

  /** Trial division by the primes below 83 decides primality below 83 squared. */
  lemma {:induction false} SmallPrime(p: nat)
    requires 2 <= p < 83 * 83 && !HasSmallFactor(p)
    ensures IsPrime(p)
  {
    forall d | 1 < d < p
      ensures !Divides(d, p)
    {
      ProperDivisor(d, p);
    }
  }

  lemma {:induction false} ProperDivisor(d: nat, p: nat)
    requires 1 < d < p < 83 * 83
    ensures Divides(d, p) ==> HasSmallFactor(p)
  {
    if Divides(d, p) {
      Quotient(d, p);
      SmallFactor(d, p / d, p);
    }
  }

  lemma {:induction false} SmallFactor(d: nat, k: nat, p: nat)
    requires p == d * k && d > 1 && k > 1 && p < 83 * 83
    ensures HasSmallFactor(p)
  {
    if d < 83 {
      FactorBelow83(d, k, p);
    } else if k < 83 {
      FactorBelow83(k, d, p);
    } else {
      ProductAtLeast(d, k, 83);
    }
  }

  lemma {:induction false} FactorBelow83(m: nat, k: nat, p: nat)
    requires p == m * k && 2 <= m < 83
    ensures HasSmallFactor(p)
  {
    if m % 2 == 0 {
      MultipleOf(2, m, k, p);
    } else if m % 3 == 0 {
      MultipleOf(3, m, k, p);
    } else if m % 5 == 0 {
      MultipleOf(5, m, k, p);
    } else if m % 7 == 0 {
      MultipleOf(7, m, k, p);
    } else {
      LargerPrimes(m);
      DividesIntro(m, k, p);
    }
  }

  lemma {:induction false} MultipleOf(c: nat, m: nat, k: nat, p: nat)
    requires c > 0 && p == m * k && Divides(c, m)
    ensures p % c == 0
  {
    Quotient(c, m);
    MulRearrange(c, m / c, k);
    DividesIntro(c, m / c * k, p);
  }

  lemma {:induction false} LargerPrimes(m: nat)
    requires 2 <= m < 83 && m % 2 != 0 && m % 3 != 0 && m % 5 != 0 && m % 7 != 0
    ensures || m == 11 || m == 13 || m == 17 || m == 19 || m == 23 || m == 29 || m == 31 || m == 37 || m == 41
      || m == 43 || m == 47 || m == 53 || m == 59 || m == 61 || m == 67 || m == 71 || m == 73 || m == 79
  {
  }

  lemma {:induction false} ProductAtLeast(a: nat, b: nat, m: nat)
    requires a >= m && b >= m
    ensures a * b >= m * m
  {
    assert a * b >= m * b;
    assert m * b >= m * m;
  }

  lemma {:induction false} SmallSafePrime(p: nat)
    requires 5 <= p < 83 * 83 && !HasSmallFactor(p) && !HasSmallFactor((p - 1) / 2)
    ensures SafePrime(p)
  {
    SmallPrime(p);
    SmallPrime((p - 1) / 2);
  }

  lemma {:induction false} Safe467()
    ensures SafePrime(467)
  {
    SmallSafePrime(467);
  }

  lemma {:induction false} Safe479()
    ensures SafePrime(479)
  {
    SmallSafePrime(479);
  }

  lemma {:induction false} KeyOfSafePrimes(kp: KeyPair, half: nat)
    requires SafePrime(kp.P) && SafePrime(kp.Q) && kp.P != kp.Q && kp.N == kp.P * kp.Q >= 256
    requires kp.Phi == (kp.P - 1) * (kp.Q - 1) && BitLen(kp.N) == 2 * half + 2
    requires BitLen((kp.P - 1) / 2) == half && BitLen((kp.Q - 1) / 2) == half
    ensures GeneratedKey(kp) && BitLen(kp.N) / 2 == half + 1
  {
  }

  /** Safe keys exist, in the shape that key generation returns: 467 and 479 are safe primes
      with the halves 233 and 239. The key has 18 bits, too few for an encoded message with a
      salt. */
  lemma {:induction false} SafeKeysExist()
    ensures GeneratedKey(KeyPair(223693, 65537, 12025, 467, 479, 222748))
    ensures SafeKey(KeyPair(223693, 65537, 12025, 467, 479, 222748))
  {
    Safe467();
    Safe479();
    SmallSizes();
    KeyOfSafePrimes(KeyPair(223693, 65537, 12025, 467, 479, 222748), 8);
    GeneratedKeyIsSafe(KeyPair(223693, 65537, 12025, 467, 479, 222748));
  }

  lemma {:induction false} SmallSizes()
    ensures BitLen(223693) == 18 && BitLen(233) == 8 && BitLen(239) == 8
  {
    ByteWidth();
    PowAdd(2, 8, 8);
    BitLenUnique(233, 8);
    BitLenUnique(239, 8);
    BitLenUnique(223693, 18);
  }

  // ----- RSA is a permutation of [0, N)

  /** e and d undo each other modulo N. */
  ghost predicate InverseExponents(kp: KeyPair, e: nat, d: nat) {
    kp.Phi > 0 && e > 0 && d > 0 && Cong(e * d, 1, kp.Phi)
  }

  lemma {:induction false} DerivedExponentsInvert(suite: Suite, kp: KeyPair, info: Bytes)
    requires RsaKey(kp)
    ensures kp.Phi > 0
    ensures var r := DeriveKeyPair(suite, kp, info);
      r.Ok? ==> InverseExponents(kp, r.value.0, r.value.1)
  {
    PhiBounds(kp);
    var r := DeriveKeyPair(suite, kp, info);
    if r.Ok? {
      ExponentShape(suite, kp.N, info);
      ModInverseSpec(r.value.0, kp.Phi);
      if r.value.1 == 0 {
        assert r.value.0 * 0 == 0;
        CongSmall(0, 1, kp.Phi);
      }
    }
  }

  lemma {:induction false} RsaInteger(kp: KeyPair, e: nat, d: nat, r: int)
    requires RsaKey(kp) && InverseExponents(kp, e, d)
    ensures kp.N > 0
    ensures Cong(Pow(Pow(r, e), d), r, kp.N) && Cong(Pow(Pow(r, d), e), r, kp.N)
  {
    PhiBounds(kp);
    var m := r % kp.N;
    RsaIdentity(kp.P, kp.Q, e, d, m);
    PowMul(r, e, d);
    PowMul(r, d, e);
    assert e * d == d * e;
    CongMod(r, kp.N);
    CongPow(m, r, e * d, kp.N);
  }

  /** Raising to one exponent and then to the other gives every m below N back, whether or
      not m is coprime to N. */
  lemma {:induction false} RsaPermutation(kp: KeyPair, e: nat, d: nat, m: nat)
    requires RsaKey(kp) && InverseExponents(kp, e, d) && m < kp.N
    ensures ModExp(ModExp(m, d, kp.N), e, kp.N) == m
    ensures ModExp(ModExp(m, e, kp.N), d, kp.N) == m
  {
    RsaInteger(kp, e, d, m);
    ModExpTwice(m, d, e, kp.N);
    ModExpTwice(m, e, d, kp.N);
    ModUnique(m, kp.N, 0, m);
  }

  lemma {:induction false} ModExpTwice(m: int, d: nat, e: nat, n: nat)
    requires n > 0
    ensures ModExp(ModExp(m, d, n), e, n) == Pow(Pow(m, d), e) % n
  {
    ModExpCong(m, d, n);
    CongPow(ModExp(m, d, n), Pow(m, d), e, n);
  }

  /** BlindSign succeeds exactly on inputs below N for which e' is invertible; the check that
      ends in ErrSigningFailure never fires. */
  lemma {:induction false} BlindSignExact(suite: Suite, kp: KeyPair, blindedMsg: Bytes, info: Bytes)
    requires RsaKey(kp)
    ensures kp.Phi > 0
    ensures var m := OS2IP(blindedMsg);
      var keys := DeriveKeyPair(suite, kp, info);
      BlindSign(suite, kp, blindedMsg, info) ==
        if m >= kp.N then Err(ErrInvalidInput)
        else if keys.Err? then Err(keys.error)
        else Ok(I2OSP(ModExp(m, keys.value.1, kp.N), ModulusLen(kp.N)))
  {
    PhiBounds(kp);
    DerivedExponentsInvert(suite, kp, info);
    var m := OS2IP(blindedMsg);
    var keys := DeriveKeyPair(suite, kp, info);
    if m < kp.N && keys.Ok? {
      RsaPermutation(kp, keys.value.0, keys.value.1, m);
    }
  }

  // ----- the honest run

  /** A 48-byte salt fits into the encoding for this modulus. */
  predicate RoomForSalt(n: nat)
    requires UsableModulus(n)
  {
    EmLen(EmBits(n)) >= HASH_LEN + SALT_LEN + 2
  }

  /** The number that is signed: the PSS encoding of msg' as an integer. */
  function EncodedInteger(suite: Suite, n: nat, mp: Bytes, salt: Bytes): nat
    requires UsableModulus(n) && RoomForSalt(n) && |salt| == SALT_LEN
  {
    OS2IP(PssEncode(suite, mp, salt, EmBits(n)).value)
  }

  lemma {:induction false} EncodedIntegerBound(suite: Suite, n: nat, mp: Bytes, salt: Bytes)
    requires UsableModulus(n) && RoomForSalt(n) && |salt| == SALT_LEN
    ensures EncodedInteger(suite, n, mp, salt) < n
  {
    EncodingBound(suite, mp, salt, EmBits(n));
    BitLenBounds(n);
  }

  /** The signature of msg' under a private exponent: no blinding in sight. */
  function DirectSignature(suite: Suite, n: nat, d: nat, mp: Bytes, salt: Bytes): Bytes
    requires UsableModulus(n) && RoomForSalt(n) && |salt| == SALT_LEN
  {
    I2OSP(ModExp(EncodedInteger(suite, n, mp, salt), d, n), ModulusLen(n))
  }

  /** Unblinding cancels the blinding factor. */
  lemma {:induction false} UnblindAlgebra(kp: KeyPair, e: nat, d: nat, m: nat, r: int, inv: nat)
    requires RsaKey(kp) && InverseExponents(kp, e, d) && Cong(r * inv, 1, kp.N)
    ensures var z := BlindedInteger(m, r, e, kp.N);
      (ModExp(z, d, kp.N) * inv) % kp.N == ModExp(m, d, kp.N)
  {
    var n := kp.N;
    var x := ModExp(r, e, n);
    var z := BlindedInteger(m, r, e, n);
    // z^d = m^d * r, because x^d = r
    CongMod(m * x, n);
    CongPow(z, m * x, d, n);
    PowOfProduct(m, x, d);
    ModExpCong(r, e, n);
    CongPow(x, Pow(r, e), d, n);
    RsaInteger(kp, e, d, r);
    CongMul(Pow(m, d), Pow(m, d), Pow(x, d), r, n);
    // (m^d * r) * inv = m^d
    ModExpCong(z, d, n);
    CongMul(ModExp(z, d, n), Pow(m, d) * r, inv, inv, n);
    CongMul(Pow(m, d), Pow(m, d), r * inv, 1, n);
    MulRearrange(Pow(m, d), r, inv);
  }

  /** The modulus sizes that Verify can handle: its buffer has ModulusLen bytes, pssVerify
      wants EmLen, and they differ when the size in bits is one above a multiple of 8. */
  predicate VerifiableSize(n: nat) {
    BitLen(n) % 8 != 1
  }

  /** The integer that Verify recovers from a direct signature is the one that was signed. */
  lemma {:induction false} DirectRecovered(suite: Suite, kp: KeyPair, e: nat, d: nat, mp: Bytes, salt: Bytes)
    requires RsaKey(kp) && InverseExponents(kp, e, d) && RoomForSalt(kp.N) && |salt| == SALT_LEN
    ensures var s := OS2IP(DirectSignature(suite, kp.N, d, mp, salt));
      s < kp.N && ModExp(s, e, kp.N) == EncodedInteger(suite, kp.N, mp, salt)
  {
    var n, m := kp.N, EncodedInteger(suite, kp.N, mp, salt);
    EncodedIntegerBound(suite, n, mp, salt);
    RsaPermutation(kp, e, d, m);
    ModulusLenBounds(n);
    DecodeEncode(ModExp(m, d, n), ModulusLen(n));
  }

  lemma {:induction false} DirectIsAccepted(suite: Suite, kp: KeyPair, e: nat, d: nat, mp: Bytes, salt: Bytes)
    requires RsaKey(kp) && InverseExponents(kp, e, d) && VerifiableSize(kp.N)
    requires RoomForSalt(kp.N) && |salt| == SALT_LEN
    ensures Accepts(suite, kp.N, e, mp, DirectSignature(suite, kp.N, d, mp, salt))
  {
    DirectRecovered(suite, kp, e, d, mp, salt);
    EncodedIsAccepted(suite, kp.N, e, mp, salt, DirectSignature(suite, kp.N, d, mp, salt));
  }

  lemma {:induction false} EncodedIsAccepted(suite: Suite, n: nat, e: nat, mp: Bytes, salt: Bytes, sig: Bytes)
    requires UsableModulus(n) && VerifiableSize(n) && RoomForSalt(n) && |salt| == SALT_LEN
    requires OS2IP(sig) < n && ModExp(OS2IP(sig), e, n) == EncodedInteger(suite, n, mp, salt)
    ensures Accepts(suite, n, e, mp, sig)
  {
    EncodedFills(suite, n, mp, salt);
    EncodedVerifies(suite, mp, salt, EmBits(n));
  }

  /** For a verifiable size, FillBytes restores the encoded message from its integer. */
  lemma {:induction false} EncodedFills(suite: Suite, n: nat, mp: Bytes, salt: Bytes)
    requires UsableModulus(n) && VerifiableSize(n) && RoomForSalt(n) && |salt| == SALT_LEN
    ensures I2OSP(EncodedInteger(suite, n, mp, salt), ModulusLen(n)) == PssEncode(suite, mp, salt, EmBits(n)).value
  {
    SizesAgree(n);
    EncodeDecode(PssEncode(suite, mp, salt, EmBits(n)).value);
  }

  /** A number whose e-th power encodes the message is the d-th power of that encoding. */
  lemma {:induction false} RecoveredIsDirect(suite: Suite, kp: KeyPair, e: nat, d: nat, mp: Bytes, salt: Bytes, s: nat)
    requires RsaKey(kp) && InverseExponents(kp, e, d) && s < kp.N && |salt| == SALT_LEN
    requires PssEncode(suite, mp, salt, EmBits(kp.N)) == Ok(I2OSP(ModExp(s, e, kp.N), ModulusLen(kp.N)))
    ensures RoomForSalt(kp.N) && s == ModExp(EncodedInteger(suite, kp.N, mp, salt), d, kp.N)
  {
    ModulusLenBounds(kp.N);
    DecodeEncode(ModExp(s, e, kp.N), ModulusLen(kp.N));
    RsaPermutation(kp, e, d, s);
  }

  lemma {:induction false} AcceptedIsDirect(suite: Suite, kp: KeyPair, e: nat, d: nat, mp: Bytes, sig: Bytes)
      returns (salt: Bytes)
    requires RsaKey(kp) && InverseExponents(kp, e, d)
    requires |sig| == ModulusLen(kp.N) && Accepts(suite, kp.N, e, mp, sig)
    ensures RoomForSalt(kp.N) && |salt| == SALT_LEN && sig == DirectSignature(suite, kp.N, d, mp, salt)
  {
    EncodeDecode(sig);
    salt := VerifiedIsEncoded(suite, mp, I2OSP(ModExp(OS2IP(sig), e, kp.N), ModulusLen(kp.N)), EmBits(kp.N));
    RecoveredIsDirect(suite, kp, e, d, mp, salt, OS2IP(sig));
  }

  /** sig is the signature that private exponent d makes of msg' with some 48-byte salt. */
  ghost predicate IsDirectSignature(suite: Suite, n: nat, d: nat, mp: Bytes, sig: Bytes)
    requires UsableModulus(n)
  {
    RoomForSalt(n) && exists salt: Bytes :: |salt| == SALT_LEN && sig == DirectSignature(suite, n, d, mp, salt)
  }

  /** Verify accepts exactly the signatures that the derived private key makes of the
      message with some salt. */
  lemma {:induction false} VerifyExact(suite: Suite, kp: KeyPair, msg: Bytes, info: Bytes, sig: Bytes)
    requires RsaKey(kp) && VerifiableSize(kp.N)
    ensures kp.Phi > 0
    ensures var keys := DeriveKeyPair(suite, kp, info);
      keys.Ok? ==>
        (Verify(suite, kp.Public(), msg, info, sig).Ok? <==>
          IsDirectSignature(suite, kp.N, keys.value.1, BuildMsgPrime(msg, info), sig))
  {
    DerivedExponentsInvert(suite, kp, info);
    var keys := DeriveKeyPair(suite, kp, info);
    if keys.Ok? {
      AcceptsExact(suite, kp, keys.value.0, keys.value.1, BuildMsgPrime(msg, info), sig);
    }
  }

  lemma {:induction false} AcceptsExact(suite: Suite, kp: KeyPair, e: nat, d: nat, mp: Bytes, sig: Bytes)
    requires RsaKey(kp) && InverseExponents(kp, e, d) && VerifiableSize(kp.N)
    ensures |sig| == ModulusLen(kp.N) && Accepts(suite, kp.N, e, mp, sig) <==>
      IsDirectSignature(suite, kp.N, d, mp, sig)
  {
    if |sig| == ModulusLen(kp.N) && Accepts(suite, kp.N, e, mp, sig) {
      var salt := AcceptedIsDirect(suite, kp, e, d, mp, sig);
    } else if IsDirectSignature(suite, kp.N, d, mp, sig) {
      var salt: Bytes :| |salt| == SALT_LEN && sig == DirectSignature(suite, kp.N, d, mp, salt);
      DirectIsAccepted(suite, kp, e, d, mp, salt);
    }
  }

  lemma {:induction false} SizesAgree(n: nat)
    requires UsableModulus(n)
    ensures VerifiableSize(n) <==> EmLen(EmBits(n)) == ModulusLen(n)
  {
    CeilingStep(BitLen(n));
  }

  lemma {:induction false} CeilingStep(b: nat)
    requires b > 0
    ensures b % 8 != 1 <==> (b - 1 + 7) / 8 == (b + 7) / 8
  {
  }

  /** For the other sizes Verify accepts nothing at all, not even its own signatures. */
  lemma {:induction false} UnverifiableSize(suite: Suite, pk: PublicKey, msg: Bytes, info: Bytes, sig: Bytes)
    requires UsableModulus(pk.N) && !VerifiableSize(pk.N)
    ensures Verify(suite, pk, msg, info, sig).Err?
  {
    SizesAgree(pk.N);
  }

  /** Blind succeeds exactly if the salt fits, r is invertible and HKDF stretches far enough. */
  lemma {:induction false} BlindExact(suite: Suite, pk: PublicKey, msg: Bytes, info: Bytes, salt: Bytes, r: int)
    requires UsableModulus(pk.N) && |salt| == SALT_LEN
    ensures Blind(suite, pk, msg, info, salt, r).Ok? <==>
      RoomForSalt(pk.N) && Coprime(r % pk.N, pk.N) && LambdaLen(pk.N) + 16 <= HKDF_LIMIT
  {
    ModInverseSpec(r, pk.N);
  }

  /** Blind, BlindSign, Finalize, for any message, metadata, salt and invertible r: the
      result is the direct signature, whatever r was, and it verifies; this fails only for
      the modulus sizes that Verify cannot handle. */
  lemma {:induction false} EndToEnd(suite: Suite, kp: KeyPair, msg: Bytes, info: Bytes, salt: Bytes, r: int)
    requires SafeKey(kp) && |salt| == SALT_LEN && Blind(suite, kp.Public(), msg, info, salt, r).Ok?
    ensures kp.Phi > 0 && RoomForSalt(kp.N) && DeriveKeyPair(suite, kp, info).Ok?
    ensures var b := Blind(suite, kp.Public(), msg, info, salt, r).value;
      var signed := BlindSign(suite, kp, b.blindedMsg, info);
      var d := DeriveKeyPair(suite, kp, info).value.1;
      && signed.Ok?
      && var sig := DirectSignature(suite, kp.N, d, BuildMsgPrime(msg, info), salt);
      && Unblind(kp.N, signed.value, b.inv) == sig
      && Finalize(suite, kp.Public(), msg, info, signed.value, b.inv) ==
           (if VerifiableSize(kp.N) then Ok(sig) else Err(ErrInvalidSig))
  {
    BlindExact(suite, kp.Public(), msg, info, salt, r);
    DeriveKeyPairTotal(suite, kp, info);
    DerivedExponentsInvert(suite, kp, info);
    BlindThenSign(suite, kp, msg, info, salt, r);
    var (e, d) := DeriveKeyPair(suite, kp, info).value;
    var sig := DirectSignature(suite, kp.N, d, BuildMsgPrime(msg, info), salt);
    if VerifiableSize(kp.N) {
      DirectIsAccepted(suite, kp, e, d, BuildMsgPrime(msg, info), salt);
    } else {
      UnverifiableSize(suite, kp.Public(), msg, info, sig);
    }
  }

  /** Finalize divides by the blinding factor modulo N: of the one number s below N with
      s*r = blindSig it returns the encoding, if that verifies. */
  lemma {:induction false} FinalizeExact(suite: Suite, pk: PublicKey, msg: Bytes, info: Bytes, blindSig: Bytes, r: int,
                                         s: nat)
    requires UsableModulus(pk.N) && ModInverse(r, pk.N).Some? && s < pk.N && Cong(r * s, OS2IP(blindSig), pk.N)
    ensures Finalize(suite, pk, msg, info, blindSig, ModInverse(r, pk.N).value) ==
      if |blindSig| != ModulusLen(pk.N) then Err(ErrInvalidInput)
      else if Verify(suite, pk, msg, info, I2OSP(s, ModulusLen(pk.N))).Ok? then Ok(I2OSP(s, ModulusLen(pk.N)))
      else Err(ErrInvalidSig)
  {
    var t := UnblindDivides(pk.N, r, OS2IP(blindSig));
    CongCancel(r, ModInverse(r, pk.N).value, s, t, pk.N);
    CongSmall(s, t, pk.N);
  }

  /** And there is such a number. */
  lemma {:induction false} UnblindDivides(n: nat, r: int, b: nat) returns (s: nat)
    requires n > 0 && ModInverse(r, n).Some?
    ensures s == (b * ModInverse(r, n).value) % n && s < n && Cong(r * s, b, n)
    ensures Cong(r * ModInverse(r, n).value, 1, n)
  {
    ModInverseSpec(r, n);
    var inv := ModInverse(r, n).value;
    s := (b * inv) % n;
    CongMod(b * inv, n);
    CongMul(r, r, s, b * inv, n);
    CongMul(r * inv, 1, b, b, n);
    assert r * (b * inv) == (r * inv) * b;
  }

  lemma {:induction false} BlindThenSign(suite: Suite, kp: KeyPair, msg: Bytes, info: Bytes, salt: Bytes, r: int)
    requires RsaKey(kp) && |salt| == SALT_LEN && kp.Phi > 0 && RoomForSalt(kp.N)
    requires Blind(suite, kp.Public(), msg, info, salt, r).Ok? && DeriveKeyPair(suite, kp, info).Ok?
    ensures var b := Blind(suite, kp.Public(), msg, info, salt, r).value;
      var signed := BlindSign(suite, kp, b.blindedMsg, info);
      var d := DeriveKeyPair(suite, kp, info).value.1;
      signed.Ok? && |signed.value| == ModulusLen(kp.N)
      && Unblind(kp.N, signed.value, b.inv) == DirectSignature(suite, kp.N, d, BuildMsgPrime(msg, info), salt)
  {
    var (e, d) := DeriveKeyPair(suite, kp, info).value;
    DerivedExponentsInvert(suite, kp, info);
    var n, k := kp.N, ModulusLen(kp.N);
    var b := Blind(suite, kp.Public(), msg, info, salt, r).value;
    var m := EncodedInteger(suite, n, BuildMsgPrime(msg, info), salt);
    var z := BlindedInteger(m, r, e, n);
    assert b.blindedMsg == I2OSP(z, k);
    ModulusLenBounds(n);
    DecodeEncode(z, k);
    BlindSignExact(suite, kp, b.blindedMsg, info);
    DecodeEncode(ModExp(z, d, n), k);
    ModInverseSpec(r, n);
    UnblindAlgebra(kp, e, d, m, r, b.inv);
  }

  // ----- blindness

  /** r blinds m to z. */
  ghost predicate BlindsTo(n: nat, e: nat, m: nat, r: nat, z: nat)
    requires n > 0
  {
    BlindedInteger(m, r, e, n) == z
  }

  /** Perfect blinding, existence: some invertible r explains any z by any m. */
  lemma {:induction false} BlindingExists(kp: KeyPair, e: nat, d: nat, m: nat, z: nat) returns (r: nat)
    requires RsaKey(kp) && InverseExponents(kp, e, d)
    requires z < kp.N && Coprime(m % kp.N, kp.N) && Coprime(z % kp.N, kp.N)
    ensures 1 <= r < kp.N && Coprime(r % kp.N, kp.N) && BlindsTo(kp.N, e, m, r, z)
  {
    var n := kp.N;
    PhiBounds(kp);
    ModInverseSpec(m, n);
    ModInverseSpec(z, n);
    var mInv, zInv := ModInverse(m, n).value, ModInverse(z, n).value;
    var w := z * mInv;
    r := ModExp(w, d, n);
    // r^e = w, so m * r^e = z
    RsaInteger(kp, e, d, w);
    ModExpTwice(w, d, e, n);
    CongMod(w, n);
    CongMul(m, m, ModExp(r, e, n), w, n);
    CongMul(m * mInv, 1, z, z, n);
    assert m * w == (m * mInv) * z by { MulRearrange(z, mInv, m); MulRearrange(m, mInv, z); }
    ModUnique(z, n, 0, z);
    // (m * zInv)^d inverts r
    CongMul(z * zInv, 1, m * mInv, 1, n);
    MulSwap(z, zInv, mInv, m);
    assert w * (m * zInv) == (z * zInv) * (m * mInv) by { MulSwap(z, mInv, zInv, m); }
    UnitPow(w, m * zInv, d, n);
    ModExpCong(w, d, n);
    var v := Pow(m * zInv, d);
    CongMul(r, Pow(w, d), v, v, n);
    UnitCoprime(r, v, n);
    if r == 0 {
      assert 0 * v == 0;
      CongSmall(0, 1, n);
    }
  }

  /** Perfect blinding, uniqueness: only one r in [0, N) does. */
  lemma {:induction false} BlindingUnique(kp: KeyPair, e: nat, d: nat, m: nat, z: nat, r1: nat, r2: nat)
    requires RsaKey(kp) && InverseExponents(kp, e, d)
    requires Coprime(m % kp.N, kp.N) && r1 < kp.N && r2 < kp.N
    requires BlindsTo(kp.N, e, m, r1, z) && BlindsTo(kp.N, e, m, r2, z)
    ensures r1 == r2
  {
    var n := kp.N;
    var x1, x2 := ModExp(r1, e, n), ModExp(r2, e, n);
    ModInverseSpec(m, n);
    CongCancel(m, ModInverse(m, n).value, x1, x2, n);
    CongSmall(x1, x2, n);
    RsaPermutation(kp, e, d, r1);
    RsaPermutation(kp, e, d, r2);
  }
}
