/** RSA partially blind signatures: key derivation, blinding, signing, unblinding and
    verification (draft-amjad-cfrg-partially-blind-rsa-01, sections 4.2 to 4.6). */
module Rsapbssa {
  import opened Wrappers
  import opened Arithmetic
  import opened NumberTheory
  import opened Bits
  import opened Bytes
  import opened HashSuite
  import opened Pss

  datatype Error =
    | ErrEncodingError
    | ErrBlindingError
    | ErrInvalidInput
    | ErrSigningFailure
    | ErrInvalidSig
    | ErrEntropyLimit    // HKDF cannot stretch that far
    | ErrNotCoprime      // e' has no inverse modulo Phi

  datatype PublicKey = PublicKey(N: nat, E: nat)

  datatype KeyPair = KeyPair(N: nat, E: nat, D: nat, P: nat, Q: nat, Phi: nat) {
    function Public(): PublicKey {
      PublicKey(N, E)
    }
  }

  /** The size of the modulus in bytes. */
  function ModulusLen(n: nat): nat {
    (BitLen(n) + 7) / 8
  }

  function LambdaLen(n: nat): nat {
    ModulusLen(n) / 2
  }

  /** A modulus of at least two bytes. For less, DerivePublicKey indexes outside its buffer. */
  predicate UsableModulus(n: nat) {
    n >= 256
  }

  /** The number of bits that an encoded message may have. */
  function EmBits(n: nat): nat
    requires UsableModulus(n)
  {
    BitLen(n) - 1
  }

  // ----- key derivation, section 4.6

  function DerivationInput(info: Bytes): Bytes {
    FromString("key") + info + [0]
  }

  /** Clear the two most significant bits, then set the lowest bit of the last byte kept. */
  function Clamp(expanded: Bytes, lambdaLen: nat): (c: Bytes)
    requires 0 < lambdaLen <= |expanded|
    ensures |c| == |expanded|
  {
    var cleared := expanded[0 := BitAnd(expanded[0], 0x3F)];
    cleared[lambdaLen - 1 := SetLowBit(cleared[lambdaLen - 1])]
  }

  function SetLowBit(a: Byte): Byte {
    OrOne(a);
    BitOr(a, 1)
  }

  lemma {:induction false} ModulusLenBounds(n: nat)
    requires UsableModulus(n)
    ensures ModulusLen(n) >= 2 && LambdaLen(n) >= 1
    ensures n < Pow(256, ModulusLen(n))
  {
    BitLenBounds(n);
    if BitLen(n) <= 8 {
      PowMonotone(2, BitLen(n), 8);
      ByteWidth();
    }
    Pow256(ModulusLen(n));
    PowMonotone(2, BitLen(n), 8 * ModulusLen(n));
  }

  /** The public exponent e' that belongs to a modulus and a metadata string. */
  function DerivePublicExponent(suite: Suite, n: nat, info: Bytes): (r: Result<nat, Error>)
    requires UsableModulus(n)
    ensures r.Ok? <==> LambdaLen(n) + 16 <= HKDF_LIMIT
  {
    ModulusLenBounds(n);
    var modulusLen, lambdaLen := ModulusLen(n), LambdaLen(n);
    if lambdaLen + 16 > HKDF_LIMIT then Err(ErrEntropyLimit)
    else
      var prk := HkdfExtract(suite, DerivationInput(info), I2OSP(n, modulusLen));
      var expanded := HkdfExpand(suite, prk, FromString("PBRSA"), lambdaLen + 16);
      Ok(OS2IP(Clamp(expanded, lambdaLen)[..lambdaLen]))
  }

  /** e' and its inverse d' modulo Phi. */
  function DeriveKeyPair(suite: Suite, kp: KeyPair, info: Bytes): (r: Result<(nat, nat), Error>)
    requires UsableModulus(kp.N) && kp.Phi > 0
  {
    var e := DerivePublicExponent(suite, kp.N, info);
    if e.Err? then Err(e.error)
    else
      match ModInverse(e.value, kp.Phi)
      case None => Err(ErrNotCoprime)
      case Some(d) => Ok((e.value, d))
  }

  // ----- the protocol, sections 4.2 to 4.5

  /** msg' = "msg" || I2OSP(len(info), 4) || info || msg; the length is a 32-bit field. */
  function BuildMsgPrime(msg: Bytes, info: Bytes): Bytes {
    FromString("msg") + I2OSP(|info| % 0x1_0000_0000, 4) + info + msg
  }

  datatype Blinded = Blinded(blindedMsg: Bytes, inv: nat)

  /** Blind, with the salt read from rng and the blinding factor r. */
  function Blind(suite: Suite, pk: PublicKey, msg: Bytes, info: Bytes, salt: Bytes, r: int): Result<Blinded, Error>
    requires UsableModulus(pk.N) && |salt| == SALT_LEN
  {
    var em := PssEncode(suite, BuildMsgPrime(msg, info), salt, EmBits(pk.N));
    if em.Err? then Err(ErrEncodingError)
    else if ModInverse(r, pk.N).None? then Err(ErrBlindingError)
    else
      var e := DerivePublicExponent(suite, pk.N, info);
      if e.Err? then Err(e.error)
      else Ok(Blinded(I2OSP(BlindedInteger(OS2IP(em.value), r, e.value, pk.N), ModulusLen(pk.N)),
                      ModInverse(r, pk.N).value))
  }

  /** z = m * r^e mod n. */
  function BlindedInteger(m: nat, r: int, e: nat, n: nat): (z: nat)
    requires n > 0
    ensures z < n
  {
    (m * ModExp(r, e, n)) % n
  }

  function BlindSign(suite: Suite, kp: KeyPair, blindedMsg: Bytes, info: Bytes): Result<Bytes, Error>
    requires UsableModulus(kp.N) && kp.Phi > 0
  {
    var m := OS2IP(blindedMsg);
    if m >= kp.N then Err(ErrInvalidInput)
    else
      var keys := DeriveKeyPair(suite, kp, info);
      if keys.Err? then Err(keys.error)
      else
        var (e, d) := keys.value;
        var s := ModExp(m, d, kp.N);
        if ModExp(s, e, kp.N) != m then Err(ErrSigningFailure)
        else Ok(I2OSP(s, ModulusLen(kp.N)))
  }

  /** The part of Verify that needs the exponent e: s < N, and s^e decodes to msg'. */
  predicate Accepts(suite: Suite, n: nat, e: nat, mp: Bytes, sig: Bytes)
    requires UsableModulus(n)
  {
    && OS2IP(sig) < n
    && PssVerify(suite, mp, I2OSP(ModExp(OS2IP(sig), e, n), ModulusLen(n)), EmBits(n))
  }

  function Verify(suite: Suite, pk: PublicKey, msg: Bytes, info: Bytes, sig: Bytes): Result<(), Error>
    requires UsableModulus(pk.N)
  {
    if |sig| != ModulusLen(pk.N) then Err(ErrInvalidSig)
    else
      var e := DerivePublicExponent(suite, pk.N, info);
      if e.Err? then Err(e.error)
      else if Accepts(suite, pk.N, e.value, BuildMsgPrime(msg, info), sig) then Ok(())
      else Err(ErrInvalidSig)
  }

  function Unblind(n: nat, blindSig: Bytes, inv: nat): Bytes
    requires n > 0
  {
    I2OSP((OS2IP(blindSig) * inv) % n, ModulusLen(n))
  }

  function Finalize(suite: Suite, pk: PublicKey, msg: Bytes, info: Bytes, blindSig: Bytes, inv: nat):
      Result<Bytes, Error>
    requires UsableModulus(pk.N)
  {
    if |blindSig| != ModulusLen(pk.N) then Err(ErrInvalidInput)
    else
      var sig := Unblind(pk.N, blindSig, inv);
      if Verify(suite, pk, msg, info, sig).Err? then Err(ErrInvalidSig)
      else Ok(sig)
  }

  /** DerivePublicKey fills and masks its buffers in place. */
  method DerivePublicKey(suite: Suite, pk: PublicKey, info: Bytes) returns (r: Result<nat, Error>)
    requires UsableModulus(pk.N)
    ensures r == DerivePublicExponent(suite, pk.N, info)
  {
    ModulusLenBounds(pk.N);
    var modulusLen := ModulusLen(pk.N);
    var lambdaLen := modulusLen / 2;
    var hkdfLen := lambdaLen + 16;
    var ikm := FromString("key");
    ikm := ikm + info;
    ikm := ikm + [0];
    var salt := I2OSP(pk.N, modulusLen);
    if hkdfLen > HKDF_LIMIT {
      return Err(ErrEntropyLimit);
    }
    var stream := HkdfExpand(suite, HkdfExtract(suite, ikm, salt), FromString("PBRSA"), hkdfLen);
    var expanded := new Byte[hkdfLen](i requires 0 <= i < |stream| => stream[i]);
    assert expanded[..] == stream;
    expanded[0] := BitAnd(expanded[0], 0x3F);
    expanded[lambdaLen - 1] := SetLowBit(expanded[lambdaLen - 1]);
    assert expanded[..] == Clamp(stream, lambdaLen);
    return Ok(OS2IP(expanded[..lambdaLen]));
  }
}
