/** Unlinkability: every valid signature could have come out of every signing session under
    the same metadata, in exactly one way. */
module Unlinkability {
  import opened Arithmetic
  import opened NumberTheory
  import opened Bits
  import opened Bytes
  import opened HashSuite
  import opened Pss
  import opened Rsapbssa
  import opened RsapbssaTheorems

  /** With this salt and blinding factor, Blind sends the blinded message, and unblinding the
      answer of BlindSign to it gives the signature. */
  predicate Links(suite: Suite, kp: KeyPair, msg: Bytes, info: Bytes, sig: Bytes, blindedMsg: Bytes,
                  salt: Bytes, r: nat)
    requires UsableModulus(kp.N) && kp.Phi > 0
  {
    && |salt| == SALT_LEN && 1 <= r < kp.N
    && var b := Blind(suite, kp.Public(), msg, info, salt, r);
    && b.Ok? && b.value.blindedMsg == blindedMsg
    && var signed := BlindSign(suite, kp, blindedMsg, info);
    && signed.Ok? && Unblind(kp.N, signed.value, b.value.inv) == sig
  }

  /** A signature and a blinded message that are invertible modulo N, as all but the
      multiples of P and Q are. */
  predicate Invertible(n: nat, b: Bytes)
    requires n > 0
  {
    Coprime(OS2IP(b) % n, n)
  }

  /** The number that an invertible signature signs is invertible. */
  lemma {:induction false} SignedIsCoprime(s: nat, e: nat, m: nat, n: nat)
    requires n > 0 && Coprime(s % n, n) && ModExp(s, e, n) == m
    ensures Coprime(m % n, n)
  {
    ModInverseSpec(s, n);
    var v := ModInverse(s, n).value;
    UnitPow(s, v, e, n);
    ModExpCong(s, e, n);
    CongMul(m, Pow(s, e), Pow(v, e), Pow(v, e), n);
    UnitCoprime(m, Pow(v, e), n);
  }

  /** What a verified signature is made of. */
  lemma {:induction false} SaltOfSignature(suite: Suite, kp: KeyPair, msg: Bytes, info: Bytes, sig: Bytes)
      returns (salt: Bytes)
    requires SafeKey(kp) && Verify(suite, kp.Public(), msg, info, sig).Ok?
    ensures kp.Phi > 0 && DeriveKeyPair(suite, kp, info).Ok? && RoomForSalt(kp.N) && |salt| == SALT_LEN
    ensures sig == DirectSignature(suite, kp.N, DeriveKeyPair(suite, kp, info).value.1, BuildMsgPrime(msg, info), salt)
  {
    PhiBounds(kp);
    DeriveKeyPairTotal(suite, kp, info);
    DerivedExponentsInvert(suite, kp, info);
    var (e, d) := DeriveKeyPair(suite, kp, info).value;
    salt := AcceptedIsDirect(suite, kp, e, d, BuildMsgPrime(msg, info), sig);
  }

  lemma {:induction false} EncodingIsCoprime(suite: Suite, kp: KeyPair, e: nat, d: nat, mp: Bytes, salt: Bytes)
    requires RsaKey(kp) && InverseExponents(kp, e, d) && RoomForSalt(kp.N) && |salt| == SALT_LEN
    requires Invertible(kp.N, DirectSignature(suite, kp.N, d, mp, salt))
    ensures Coprime(EncodedInteger(suite, kp.N, mp, salt) % kp.N, kp.N)
  {
    DirectRecovered(suite, kp, e, d, mp, salt);
    SignedIsCoprime(OS2IP(DirectSignature(suite, kp.N, d, mp, salt)), e, EncodedInteger(suite, kp.N, mp, salt), kp.N);
  }

  lemma {:induction false} BlindsTheBytes(suite: Suite, kp: KeyPair, msg: Bytes, info: Bytes, salt: Bytes, r: nat)
    requires SafeKey(kp) && |salt| == SALT_LEN && Blind(suite, kp.Public(), msg, info, salt, r).Ok?
    ensures kp.Phi > 0 && RoomForSalt(kp.N) && DeriveKeyPair(suite, kp, info).Ok?
    ensures Blind(suite, kp.Public(), msg, info, salt, r).value.blindedMsg ==
      I2OSP(BlindedInteger(EncodedInteger(suite, kp.N, BuildMsgPrime(msg, info), salt), r,
                           DeriveKeyPair(suite, kp, info).value.0, kp.N), ModulusLen(kp.N))
  {
    PhiBounds(kp);
    BlindExact(suite, kp.Public(), msg, info, salt, r);
    DeriveKeyPairTotal(suite, kp, info);
  }

  /** Some salt and blinding factor link them. */
  lemma {:induction false} LinkExists(suite: Suite, kp: KeyPair, msg: Bytes, info: Bytes, sig: Bytes,
                                      blindedMsg: Bytes)
      returns (salt: Bytes, r: nat)
    requires SafeKey(kp) && Verify(suite, kp.Public(), msg, info, sig).Ok? && Invertible(kp.N, sig)
    requires |blindedMsg| == ModulusLen(kp.N) && OS2IP(blindedMsg) < kp.N && Invertible(kp.N, blindedMsg)
    ensures kp.Phi > 0 && Links(suite, kp, msg, info, sig, blindedMsg, salt, r)
  {
    salt := SaltOfSignature(suite, kp, msg, info, sig);
    DerivedExponentsInvert(suite, kp, info);
    var mp, n := BuildMsgPrime(msg, info), kp.N;
    var (e, d) := DeriveKeyPair(suite, kp, info).value;
    var m := EncodedInteger(suite, n, mp, salt);
    EncodingIsCoprime(suite, kp, e, d, mp, salt);
    r := BlindingExists(kp, e, d, m, OS2IP(blindedMsg));
    DeriveKeyPairTotal(suite, kp, info);
    BlindExact(suite, kp.Public(), msg, info, salt, r);
    BlindsTheBytes(suite, kp, msg, info, salt, r);
    EncodeDecode(blindedMsg);
    EndToEnd(suite, kp, msg, info, salt, r);
  }

  /** And no other pair does. */
  lemma {:induction false} LinkUnique(suite: Suite, kp: KeyPair, msg: Bytes, info: Bytes, sig: Bytes,
                                      blindedMsg: Bytes, s1: Bytes, r1: nat, s2: Bytes, r2: nat)
    requires SafeKey(kp) && Invertible(kp.N, sig) && kp.Phi > 0
    requires Links(suite, kp, msg, info, sig, blindedMsg, s1, r1)
    requires Links(suite, kp, msg, info, sig, blindedMsg, s2, r2)
    ensures s1 == s2 && r1 == r2
  {
    EndToEnd(suite, kp, msg, info, s1, r1);
    EndToEnd(suite, kp, msg, info, s2, r2);
    DerivedExponentsInvert(suite, kp, info);
    var mp := BuildMsgPrime(msg, info);
    var (e, d) := DeriveKeyPair(suite, kp, info).value;
    SameSalt(suite, kp, e, d, mp, s1, s2);
    EncodingIsCoprime(suite, kp, e, d, mp, s1);
    BlindsTheBytes(suite, kp, msg, info, s1, r1);
    BlindsTheBytes(suite, kp, msg, info, s1, r2);
    SameFactor(suite, kp, e, d, EncodedInteger(suite, kp.N, mp, s1), r1, r2);
  }

  lemma {:induction false} SameSalt(suite: Suite, kp: KeyPair, e: nat, d: nat, mp: Bytes, s1: Bytes, s2: Bytes)
    requires RsaKey(kp) && InverseExponents(kp, e, d) && RoomForSalt(kp.N) && |s1| == |s2| == SALT_LEN
    requires DirectSignature(suite, kp.N, d, mp, s1) == DirectSignature(suite, kp.N, d, mp, s2)
    ensures s1 == s2
  {
    DirectRecovered(suite, kp, e, d, mp, s1);
    DirectRecovered(suite, kp, e, d, mp, s2);
    EncodeDecode(PssEncode(suite, mp, s1, EmBits(kp.N)).value);
    EncodeDecode(PssEncode(suite, mp, s2, EmBits(kp.N)).value);
    SaltRecovered(suite, mp, s1, s2, EmBits(kp.N));
  }

  lemma {:induction false} SameFactor(suite: Suite, kp: KeyPair, e: nat, d: nat, m: nat, r1: nat, r2: nat)
    requires RsaKey(kp) && InverseExponents(kp, e, d) && Coprime(m % kp.N, kp.N) && r1 < kp.N && r2 < kp.N
    requires I2OSP(BlindedInteger(m, r1, e, kp.N), ModulusLen(kp.N))
      == I2OSP(BlindedInteger(m, r2, e, kp.N), ModulusLen(kp.N))
    ensures r1 == r2
  {
    ModulusLenBounds(kp.N);
    DecodeEncode(BlindedInteger(m, r1, e, kp.N), ModulusLen(kp.N));
    DecodeEncode(BlindedInteger(m, r2, e, kp.N), ModulusLen(kp.N));
    BlindingUnique(kp, e, d, m, BlindedInteger(m, r1, e, kp.N), r1, r2);
  }
}
