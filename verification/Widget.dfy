/** The browser side of the signature scheme: its own big-integer arithmetic, its own MGF1,
    HKDF and PSS loops, and blinding. Each is proved against what the server computes. */
module Widget {
  import opened Wrappers
  import opened Arithmetic
  import NumberTheory
  import opened Bytes
  import opened Buffers
  import opened HashSuite
  import opened Pss
  import opened Rsapbssa

  // ----- BigInt arithmetic

  /** The BigInt operator %, whose result takes the sign of the dividend. */
  function Rem(a: int, n: int): int
    requires n > 0
  {
    if a >= 0 then a % n else -((-a) % n)
  }

  /** Square-and-multiply computes base^exp mod modulus, except for base^0 modulo 1: there it
      returns 1 and not 0. */
  method ModPow(base: nat, exp: nat, modulus: nat) returns (result: nat)
    requires modulus > 0
    ensures result == (if modulus == 1 && exp == 0 then 1 else ModExp(base, exp, modulus))
  {
    result := 1;
    var b: nat, e: nat := base % modulus, exp;
    CongMod(base, modulus);
    CongPow(b, base, exp, modulus);
    while e > 0
      invariant Cong(result * Pow(b, e), Pow(base, exp), modulus)
      invariant result < modulus || (result == 1 && (e > 0 || exp == 0))
      invariant exp == 0 ==> e == 0 && result == 1
    {
      SquareStep(result, b, e, modulus);
      if e % 2 == 1 {
        result := result * b % modulus;
      }
      e := e / 2;
      b := b * b % modulus;
    }
    assert result * Pow(b, 0) == result;
    if result < modulus {
      ModUnique(result, modulus, 0, result);
    }
  }

  /** One round keeps result * b^e modulo the modulus. */
  lemma {:induction false} SquareStep(result: nat, b: nat, e: nat, n: nat)
    requires n > 0 && e > 0
    ensures var next := if e % 2 == 1 then result * b % n else result;
      Cong(next * Pow(b * b % n, e / 2), result * Pow(b, e), n)
  {
    var h := Pow(b * b, e / 2);
    CongMod(b * b, n);
    CongPow(b * b % n, b * b, e / 2, n);
    PowOfProduct(b, b, e / 2);
    PowAdd(b, e / 2, e / 2);
    if e % 2 == 1 {
      assert Pow(b, e) == b * h by { assert e - 1 == e / 2 + e / 2; }
      CongMod(result * b, n);
      CongMul(result * b % n, result * b, Pow(b * b % n, e / 2), h, n);
      MulRearrange(result, b, h);
    } else {
      assert e == e / 2 + e / 2;
      CongMul(result, result, Pow(b * b % n, e / 2), h, n);
    }
  }

  /** Extended Euclid returns the inverse in [0, m), and throws (None) when there is none:
      the same answer as big.Int.ModInverse. */
  method ModInverse(a: nat, m: nat) returns (r: Option<nat>)
    requires m > 0
    ensures r == NumberTheory.ModInverse(a, m)
  {
    var oldR: nat, rest: nat := a, m;
    var oldS, s := 1, 0;
    CongIntro(0, m, m, -1);
    while rest != 0
      invariant NumberTheory.Gcd(oldR, rest) == NumberTheory.Gcd(a, m)
      invariant Cong(oldS * a, oldR, m) && Cong(s * a, rest, m)
      decreases rest
    {
      var q := oldR / rest;
      EuclidStep(a, m, oldR, rest, oldS, s);
      oldR, rest := rest, oldR - q * rest;
      oldS, s := s, oldS - q * s;
    }
    assert oldR == NumberTheory.Gcd(a, m);
    CoprimeReduced(a, m);
    NumberTheory.ModInverseSpec(a, m);
    if oldR != 1 {
      return None;
    }
    var x := Rem(Rem(oldS, m) + m, m);
    NormalizedRem(oldS, m);
    CongMul(oldS, x, a, a, m);
    assert x * a == a * x;
    NumberTheory.InverseUnique(a, x, NumberTheory.ModInverse(a, m).value, m);
    return Some(x);
  }

  lemma {:induction false} EuclidStep(a: nat, m: nat, oldR: nat, rest: nat, oldS: int, s: int)
    requires m > 0 && rest > 0
    requires Cong(oldS * a, oldR, m) && Cong(s * a, rest, m)
    ensures oldR - oldR / rest * rest == oldR % rest
    ensures Cong((oldS - oldR / rest * s) * a, oldR % rest, m)
  {
    assert oldR == rest * (oldR / rest) + oldR % rest;
    CongSubMultiple(a, m, oldR, rest, oldS, s, oldR / rest);
  }

  lemma {:induction false} CongSubMultiple(a: int, m: nat, x: int, y: int, s: int, t: int, q: int)
    requires m > 0 && Cong(s * a, x, m) && Cong(t * a, y, m)
    ensures Cong((s - q * t) * a, x - q * y, m)
  {
    CongMul(t * a, y, -q, -q, m);
    CongAdd(s * a, x, (t * a) * -q, y * -q, m);
    MulRearrange(q, t, a);
    assert (s - q * t) * a == s * a - (q * t) * a;
    assert (t * a) * -q == -((t * a) * q);
  }

  lemma {:induction false} CoprimeReduced(a: nat, m: nat)
    requires m > 0
    ensures NumberTheory.Coprime(a, m) <==> NumberTheory.Coprime(a % m, m)
  {
    assert NumberTheory.Gcd(a, m) == NumberTheory.Gcd(m, a % m);
    if NumberTheory.Coprime(a, m) {
      NumberTheory.CoprimeSym(m, a % m);
    } else if NumberTheory.Coprime(a % m, m) {
      NumberTheory.CoprimeSym(a % m, m);
    }
  }

  /** Adding m once and reducing again turns the signed remainder into the one in [0, m). */
  lemma {:induction false} NormalizedRem(a: int, m: nat)
    requires m > 0
    ensures Rem(Rem(a, m) + m, m) == a % m && Cong(a, a % m, m)
  {
    CongMod(a, m);
    if a >= 0 {
      ModUnique(a % m + m, m, 1, a % m);
    } else {
      var t := (-a) % m;
      assert -a == m * ((-a) / m) + t;
      if t == 0 {
        assert a == m * -((-a) / m);
        ModUnique(a, m, -((-a) / m), 0);
        ModUnique(m, m, 1, 0);
      } else {
        assert a == m * (-((-a) / m) - 1) + (m - t) by {
          assert m * (-((-a) / m) - 1) == m * -((-a) / m) - m;
        }
        ModUnique(a, m, -((-a) / m) - 1, m - t);
        ModUnique(m - t, m, 0, m - t);
      }
    }
  }

  /** The shortest big-endian form, at least one byte long. */
  function MinimalBytes(n: nat): (b: Bytes)
    ensures |b| >= 1
  {
    if n < 256 then [n] else MinimalBytes(n / 256) + [n % 256]
  }

  function BigIntToBytes(n: nat, length: nat): Bytes {
    var b := MinimalBytes(n);
    if |b| < length then Zeros(length - |b|) + b else b
  }

  lemma {:induction false} MinimalIsI2OSP(n: nat)
    ensures var k := |MinimalBytes(n)|;
      MinimalBytes(n) == I2OSP(n, k) && n < Pow(256, k) && (k > 1 ==> n >= Pow(256, k - 1))
  {
    if n < 256 {
      assert Pow(256, 1) == 256 * Pow(256, 0);
      ModUnique(n, 256, 0, n);
      assert I2OSP(n, 1) == I2OSP(n / 256, 0) + [n % 256] == [n];
    } else {
      MinimalIsI2OSP(n / 256);
      var k := |MinimalBytes(n / 256)|;
      assert n < 256 * Pow(256, k);
      if k > 1 {
        assert n >= 256 * Pow(256, k - 1);
      } else {
        assert Pow(256, 1) == 256 * Pow(256, 0);
      }
    }
  }

  lemma {:induction false} I2OSPPadded(n: nat, k: nat, length: nat)
    requires n < Pow(256, k) && k <= length
    ensures I2OSP(n, length) == Zeros(length - k) + I2OSP(n, k)
    decreases length
  {
    if k == 0 {
      assert n == 0;
      if length > 0 {
        I2OSPPadded(0, 0, length - 1);
        assert Zeros(length) == Zeros(length - 1) + [0];
      }
    } else {
      DivBound(n, Pow(256, k - 1));
      I2OSPPadded(n / 256, k - 1, length - 1);
    }
  }

  /** bigIntToBytes is FillBytes exactly on the integers that fit into the length. */
  lemma {:induction false} BigIntToBytesIsI2OSP(n: nat, length: nat)
    ensures BigIntToBytes(n, length) == I2OSP(n, length) <==> length > 0 && n < Pow(256, length)
  {
    MinimalIsI2OSP(n);
    var k := |MinimalBytes(n)|;
    if k <= length {
      I2OSPPadded(n, k, length);
      PowMonotone(256, k, length);
      assert Zeros(0) + MinimalBytes(n) == MinimalBytes(n);
    } else if length > 0 {
      PowMonotone(256, length, k - 1);
    }
  }

  // ----- key derivation

  /** The loop of hkdfExpand; its counter lives in a Uint8Array and wraps at 256. */
  method ExpandLoop(suite: Suite, prk: Bytes, info: Bytes, length: nat) returns (okm: Bytes)
    ensures okm == HkdfExpand(suite, prk, info, length)
  {
    var out := new Byte[length];
    var t: Bytes := [];
    var done: nat, counter: nat := 0, 1;
    ghost var block := HkdfBlock(suite, prk, info);
    while done < length
      invariant counter >= 1 && done == DoneAfter(counter - 1, length)
      invariant t == HkdfT(suite, prk, info, counter - 1)
      invariant out[..done] == Stream(block, done)
      decreases length - done
    {
      t := suite.hmacSHA384(prk, t + info + [counter % 256]);
      assert t == block(counter - 1);
      var n := CopyInto(out, done, t);
      StreamExtends(block, counter - 1, length, out[..done], t[..n]);
      assert out[..done + n] == out[..done] + t[..n];
      done := done + n;
      counter := counter + 1;
    }
    assert out[..] == out[..done];
    return out[..];
  }

  /** derivePublicExponent; modulusLen is the number of bytes in which N arrived. */
  function WidgetExponent(suite: Suite, n: nat, modulusLen: nat, info: Bytes): nat
    requires modulusLen >= 2
  {
    var lambdaLen := modulusLen / 2;
    var prk := HkdfExtract(suite, DerivationInput(info), BigIntToBytes(n, modulusLen));
    OS2IP(Clamp(HkdfExpand(suite, prk, FromString("PBRSA"), lambdaLen + 16), lambdaLen)[..lambdaLen])
  }

  /** The widget derives the server's exponent wherever the server derives one at all. */
  lemma {:induction false} WidgetExponentAgrees(suite: Suite, n: nat, info: Bytes)
    requires UsableModulus(n) && DerivePublicExponent(suite, n, info).Ok?
    ensures ModulusLen(n) >= 2
    ensures WidgetExponent(suite, n, ModulusLen(n), info) == DerivePublicExponent(suite, n, info).value
  {
    ModulusLenBounds(n);
    BigIntToBytesIsI2OSP(n, ModulusLen(n));
  }

  // ----- PSS encoding

  datatype WidgetError = RangeError | BadRandomR | NoModularInverse

  /** The widget checks no length: a typed array ignores a write at index -1, and only a
      negative length or offset throws. */
  function WidgetEncode(suite: Suite, mp: Bytes, salt: Bytes, emBits: nat): Result<Bytes, WidgetError>
    requires |salt| == SALT_LEN
  {
    var emLen := EmLen(emBits);
    if emLen < HASH_LEN + SALT_LEN + 1 then Err(RangeError)
    else if emLen == HASH_LEN + SALT_LEN + 1 then
      Ok(Sealed(suite, salt, SaltedHash(suite, mp, salt), emBits))
    else Ok(PssEncode(suite, mp, salt, emBits).value)
  }

  /** Both encoders succeed on the same lengths with the same result, except for an encoded
      message of 97 bytes: the server refuses it, the widget drops the separator byte. */
  lemma {:induction false} WidgetEncodeAgrees(suite: Suite, mp: Bytes, salt: Bytes, emBits: nat)
    requires |salt| == SALT_LEN
    ensures var w := WidgetEncode(suite, mp, salt, emBits);
      var s := PssEncode(suite, mp, salt, emBits);
      && (s.Ok? ==> w == Ok(s.value))
      && (s.Err? ==> (w.Ok? <==> EmLen(emBits) == 97))
  {
  }

  method WidgetEncodeBuffer(suite: Suite, mp: Bytes, salt: Bytes, emBits: nat) returns (r: Result<Bytes, WidgetError>)
    requires |salt| == SALT_LEN
    ensures r == WidgetEncode(suite, mp, salt, emBits)
  {
    var emLen := EmLen(emBits);
    var h := HashOfPrimedMessage(suite, mp, salt);
    var dbLen := emLen - HASH_LEN - 1;
    var psLen := dbLen - SALT_LEN - 1;
    if dbLen < 0 || psLen + 1 < 0 {
      return Err(RangeError);
    }
    var db := WidgetDataBlock(dbLen, salt);
    var dbMask := Mgf1SHA384(suite, h, dbLen);
    MaskInPlace(db, dbMask, 8 * emLen - emBits);
    return Ok(db[..] + h + [TRAILER]);
  }

  method WidgetDataBlock(dbLen: nat, salt: Bytes) returns (db: array<Byte>)
    requires |salt| == SALT_LEN <= dbLen
    ensures fresh(db) && db[..] == if dbLen == SALT_LEN then salt else DataBlock(dbLen, salt)
  {
    var psLen := dbLen - SALT_LEN - 1;
    db := new Byte[dbLen](_ => 0);
    if psLen >= 0 {
      db[psLen] := 1;
      assert db[..psLen] == Zeros(psLen);
    }
    var n := CopyInto(db, psLen + 1, salt);
    if psLen >= 0 {
      SplitDataBlock(db[..], psLen);
    }
  }

  // ----- blinding

  /** The number of bits the widget allows for an encoded message. */
  function WidgetEmBits(modulusLen: nat): nat
    requires modulusLen >= 1
  {
    8 * modulusLen - 1
  }

  datatype WidgetBlinded = WidgetBlinded(blindedMsg: Bytes, rInv: nat)

  /** rsapbssaBlind, given the modulus bytes of the server, the salt and the random bytes. */
  function WidgetBlind(suite: Suite, nBytes: Bytes, msg: Bytes, info: Bytes, salt: Bytes, rBytes: Bytes):
      Result<WidgetBlinded, WidgetError>
    requires |nBytes| >= 2 && OS2IP(nBytes) > 1 && |salt| == SALT_LEN
  {
    var n, modulusLen := OS2IP(nBytes), |nBytes|;
    var em := WidgetEncode(suite, BuildMsgPrime(msg, info), salt, WidgetEmBits(modulusLen));
    if em.Err? then Err(em.error)
    else
      var r := OS2IP(rBytes) % n;
      if r == 0 then Err(BadRandomR)
      else if NumberTheory.ModInverse(r, n).None? then Err(NoModularInverse)
      else
        var e := WidgetExponent(suite, n, modulusLen, info);
        Ok(WidgetBlinded(BigIntToBytes(BlindedInteger(OS2IP(em.value), r, e, n), modulusLen),
                         NumberTheory.ModInverse(r, n).value))
  }

  function WidgetUnblind(blindSig: Bytes, rInv: nat, n: nat, modulusLen: nat): Bytes
    requires n > 0
  {
    BigIntToBytes((OS2IP(blindSig) * rInv) % n, modulusLen)
  }

  function BuildToken(sig: Bytes, metadata: Bytes, nonce: Bytes): Bytes {
    sig + metadata + nonce
  }

  /** The bytes in which the server sends its modulus: big.Int.Bytes, without leading zeros. */
  predicate SentModulus(nBytes: Bytes, n: nat) {
    |nBytes| == ModulusLen(n) && OS2IP(nBytes) == n
  }

  /** The widget's encoding has the server's number of bits exactly for moduli that fill
      their bytes. */
  lemma {:induction false} SameEmBits(n: nat)
    requires UsableModulus(n) && ModulusLen(n) >= 1
    ensures WidgetEmBits(ModulusLen(n)) == EmBits(n) <==> BitLen(n) % 8 == 0
  {
    WholeBytes(BitLen(n));
  }

  lemma {:induction false} WholeBytes(b: nat)
    ensures 8 * ((b + 7) / 8) == b <==> b % 8 == 0
  {
  }

  /** Where the size of the modulus is a whole number of bytes (97 excepted) and HKDF can
      stretch far enough, the widget blinds exactly as the server's Blind does. */
  lemma {:induction false} WidgetBlindAgrees(suite: Suite, nBytes: Bytes, pk: PublicKey, msg: Bytes, info: Bytes,
                                             salt: Bytes, rBytes: Bytes)
    requires UsableModulus(pk.N) && SentModulus(nBytes, pk.N) && |salt| == SALT_LEN
    requires BitLen(pk.N) % 8 == 0 && ModulusLen(pk.N) != 97 && LambdaLen(pk.N) + 16 <= HKDF_LIMIT
    ensures |nBytes| >= 2
    ensures var w := WidgetBlind(suite, nBytes, msg, info, salt, rBytes);
      var s := Blind(suite, pk, msg, info, salt, OS2IP(rBytes) % pk.N);
      (w.Ok? <==> s.Ok?) && (w.Ok? ==> w.value.blindedMsg == s.value.blindedMsg && w.value.rInv == s.value.inv)
  {
    ModulusLenBounds(pk.N);
    SameEmBits(pk.N);
    WidgetExponentAgrees(suite, pk.N, info);
    ZeroHasNoInverse(pk.N);
    WholeEmLen(|nBytes|);
    SameBytes(suite, nBytes, pk, msg, info, salt, rBytes);
  }

  lemma {:induction false} SameBytes(suite: Suite, nBytes: Bytes, pk: PublicKey, msg: Bytes, info: Bytes, salt: Bytes,
                                     rBytes: Bytes)
    requires UsableModulus(pk.N) && SentModulus(nBytes, pk.N) && |salt| == SALT_LEN && |nBytes| >= 2
    requires EmLen(EmBits(pk.N)) == |nBytes| && WidgetEmBits(|nBytes|) == EmBits(pk.N)
    requires DerivePublicExponent(suite, pk.N, info) == Ok(WidgetExponent(suite, pk.N, |nBytes|, info))
    ensures var w := WidgetBlind(suite, nBytes, msg, info, salt, rBytes);
      var s := Blind(suite, pk, msg, info, salt, OS2IP(rBytes) % pk.N);
      w.Ok? && s.Ok? ==> w.value.blindedMsg == s.value.blindedMsg
  {
    var em := PssEncode(suite, BuildMsgPrime(msg, info), salt, EmBits(pk.N));
    if em.Ok? {
      var e := WidgetExponent(suite, pk.N, |nBytes|, info);
      ModulusLenBounds(pk.N);
      BigIntToBytesIsI2OSP(BlindedInteger(OS2IP(em.value), OS2IP(rBytes) % pk.N, e, pk.N), |nBytes|);
    }
  }

  lemma {:induction false} WholeEmLen(k: nat)
    requires k > 0
    ensures EmLen(WidgetEmBits(k)) == k
  {
  }

  lemma {:induction false} ZeroHasNoInverse(n: nat)
    requires n > 1
    ensures NumberTheory.ModInverse(0, n).None?
  {
    var r := NumberTheory.ModInverse(0, n);
    NumberTheory.ModInverseSpec(0, n);
    if r.Some? {
      assert 0 * r.value == 0;
      CongSmall(0, 1, n);
    }
  }

  /** The widget's unblinding is the one inside Finalize. */
  lemma {:induction false} WidgetUnblindAgrees(n: nat, blindSig: Bytes, inv: nat)
    requires UsableModulus(n)
    ensures WidgetUnblind(blindSig, inv, n, ModulusLen(n)) == Unblind(n, blindSig, inv)
  {
    ModulusLenBounds(n);
    BigIntToBytesIsI2OSP((OS2IP(blindSig) * inv) % n, ModulusLen(n));
  }
}
