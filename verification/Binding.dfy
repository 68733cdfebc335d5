/** What a signature binds: the layout of msg', the derivation of e' from the metadata, and
    the digests that would have to agree for one signature to stand for two messages. */
module Binding {
  import opened Wrappers
  import opened Arithmetic
  import opened NumberTheory
  import opened Bits
  import opened Bytes
  import opened HashSuite
  import opened Pss
  import opened PssLayout
  import opened Rsapbssa
  import opened RsapbssaTheorems
  import opened KeySizes

  // ----- msg'

  lemma {:induction false} AsciiLabels()
    ensures FromString("msg") == [0x6d, 0x73, 0x67] && FromString("key") == [0x6b, 0x65, 0x79]
    ensures FromString("PBRSA") == [0x50, 0x42, 0x52, 0x53, 0x41]
  {
  }

  /** msg' byte by byte: "msg", the length of info in four bytes, info, and then the message. */
  lemma {:induction false} MsgPrimeLayout(msg: Bytes, info: Bytes)
    ensures var m := BuildMsgPrime(msg, info);
      && |m| == 7 + |info| + |msg|
      && m[0] == 0x6d && m[1] == 0x73 && m[2] == 0x67
      && OS2IP(m[3..7]) == |info| % 0x1_0000_0000
      && m[7..7 + |info|] == info && m[7 + |info|..] == msg
  {
    AsciiLabels();
    var m, size := BuildMsgPrime(msg, info), |info| % 0x1_0000_0000;
    FourBytes(size);
    assert m == [0x6d, 0x73, 0x67] + I2OSP(size, 4) + info + msg;
    assert m[3..7] == I2OSP(size, 4);
  }

  lemma {:induction false} FourBytes(n: nat)
    requires n < 0x1_0000_0000
    ensures OS2IP(I2OSP(n, 4)) == n
  {
    assert Pow(256, 2) == 0x1_0000;
    PowAdd(256, 2, 2);
    DecodeEncode(n, 4);
  }

  /** Up to 4 GiB of metadata, msg' determines the message and the metadata. */
  lemma {:induction false} MsgPrimeInjective(m1: Bytes, i1: Bytes, m2: Bytes, i2: Bytes)
    requires |i1| < 0x1_0000_0000 && |i2| < 0x1_0000_0000
    requires BuildMsgPrime(m1, i1) == BuildMsgPrime(m2, i2)
    ensures m1 == m2 && i1 == i2
  {
    MsgPrimeLayout(m1, i1);
    MsgPrimeLayout(m2, i2);
    ModUnique(|i1|, 0x1_0000_0000, 0, |i1|);
    ModUnique(|i2|, 0x1_0000_0000, 0, |i2|);
  }

  /** And no further: the length field wraps, and longer metadata is taken for shorter. */
  lemma {:induction false} MsgPrimeCollides(msg: Bytes, info: Bytes)
    requires |info| >= 0x1_0000_0000
    ensures var cut := |info| % 0x1_0000_0000;
      cut < |info| && BuildMsgPrime(msg, info) == BuildMsgPrime(info[cut..] + msg, info[..cut])
  {
    var cut := |info| % 0x1_0000_0000;
    assert info == info[..cut] + info[cut..];
    Regroup(FromString("msg") + I2OSP(cut, 4), info[..cut], info[cut..], msg);
    assert cut % 0x1_0000_0000 == cut;
  }

  lemma {:induction false} Regroup(a: Bytes, b: Bytes, c: Bytes, d: Bytes)
    ensures a + (b + c) + d == a + b + (c + d)
  {
  }

  // ----- e'

  /** okm is the first lambdaLen bytes that RFC 5869 derives from "key" || info || 0x00, with
      the modulus as salt and "PBRSA" as label. */
  ghost predicate IsKeyMaterial(suite: Suite, n: nat, info: Bytes, okm: Bytes)
    requires LambdaLen(n) <= HKDF_LIMIT
  {
    var prk := suite.hmacSHA384(I2OSP(n, ModulusLen(n)), [0x6b, 0x65, 0x79] + info + [0]);
    |okm| == LambdaLen(n)
    && forall j :: 0 <= j < |okm| ==>
         okm[j] == Rfc5869T(suite, prk, [0x50, 0x42, 0x52, 0x53, 0x41], j / 48 + 1)[j % 48]
  }

  /** The derived exponent is that key material as a number, with its two top bits cleared and
      its lowest bit set. */
  lemma {:induction false} ExponentIs(suite: Suite, n: nat, info: Bytes, okm: Bytes)
    requires UsableModulus(n) && LambdaLen(n) + 16 <= HKDF_LIMIT && IsKeyMaterial(suite, n, info, okm)
    ensures LambdaLen(n) >= 1 && Pow(2, 8 * LambdaLen(n) - 2) > 0
    ensures var x := OS2IP(okm) % Pow(2, 8 * LambdaLen(n) - 2);
      DerivePublicExponent(suite, n, info) == Ok(if x % 2 == 0 then x + 1 else x)
  {
    ModulusLenBounds(n);
    KeyMaterialIsExpanded(suite, n, info, okm);
    ClampValue(Expanded(suite, n, info), LambdaLen(n));
  }

  /** The buffer that DerivePublicKey reads from HKDF. */
  function Expanded(suite: Suite, n: nat, info: Bytes): (b: Bytes)
    ensures |b| == LambdaLen(n) + 16
  {
    HkdfExpand(suite, HkdfExtract(suite, DerivationInput(info), I2OSP(n, ModulusLen(n))),
               FromString("PBRSA"), LambdaLen(n) + 16)
  }

  lemma {:induction false} KeyMaterialIsExpanded(suite: Suite, n: nat, info: Bytes, okm: Bytes)
    requires LambdaLen(n) + 16 <= HKDF_LIMIT && IsKeyMaterial(suite, n, info, okm)
    ensures Expanded(suite, n, info)[..LambdaLen(n)] == okm
  {
    AsciiLabels();
    var prk := suite.hmacSHA384(I2OSP(n, ModulusLen(n)), [0x6b, 0x65, 0x79] + info + [0]);
    var pbrsa: Bytes := [0x50, 0x42, 0x52, 0x53, 0x41];
    forall j | 0 <= j < LambdaLen(n)
      ensures HkdfExpand(suite, prk, pbrsa, LambdaLen(n) + 16)[j] == okm[j]
    {
      HkdfIsRfc5869(suite, prk, pbrsa, LambdaLen(n) + 16, j);
    }
  }

  lemma {:induction false} ClampValue(expanded: Bytes, lambdaLen: nat)
    requires 0 < lambdaLen <= |expanded|
    ensures Pow(2, 8 * lambdaLen - 2) > 0
    ensures var x := OS2IP(expanded[..lambdaLen]) % Pow(2, 8 * lambdaLen - 2);
      OS2IP(Clamp(expanded, lambdaLen)[..lambdaLen]) == if x % 2 == 0 then x + 1 else x
  {
    PowPositive(2, 8 * lambdaLen - 2);
    var okm := expanded[..lambdaLen];
    var cleared := okm[0 := BitAnd(okm[0], 0x3F)];
    TopBitsCleared(okm);
    LowBitAdded(cleared);
    assert Clamp(expanded, lambdaLen)[..lambdaLen] == cleared[lambdaLen - 1 := SetLowBit(cleared[lambdaLen - 1])];
  }

  lemma {:induction false} TopBitsCleared(b: Bytes)
    requires b != []
    ensures Pow(2, 8 * |b| - 2) > 0
    ensures OS2IP(b[0 := BitAnd(b[0], 0x3F)]) == OS2IP(b) % Pow(2, 8 * |b| - 2)
  {
    var c, w := b[0 := BitAnd(b[0], 0x3F)], Pow(256, |b| - 1);
    SixLowBits(b[0]);
    OS2IPHead(b);
    OS2IPHead(c);
    assert c[1..] == b[1..];
    OS2IPBound(b[1..]);
    Pow256(|b| - 1);
    PowAdd(2, 6, 8 * (|b| - 1));
    assert Pow(2, 6) == 64;
    HeadModulo(b[0], OS2IP(b[1..]), w);
  }

  lemma {:induction false} SixLowBits(a: Byte)
    ensures BitAnd(a, 0x3F) == a % 64
  {
    assert Pow(2, 6) == 64;
    AndLow(a, 6);
  }

  lemma {:induction false} HeadModulo(a: nat, low: nat, w: nat)
    requires low < w
    ensures 64 * w > 0 && (a * w + low) % (64 * w) == (a % 64) * w + low
  {
    var q, r := a / 64, a % 64;
    assert a == 64 * q + r;
    Distribute(w, 64 * q, -r);
    MulRearrange(64, q, w);
    MulRearrange(64, w, q);
    DigitCompare(r, low, 64, w);
    ModUnique(a * w + low, 64 * w, q, r * w + low);
  }

  lemma {:induction false} LowBitAdded(b: Bytes)
    requires b != []
    ensures var last := |b| - 1;
      OS2IP(b[last := SetLowBit(b[last])]) == if OS2IP(b) % 2 == 0 then OS2IP(b) + 1 else OS2IP(b)
  {
    var last := |b| - 1;
    var c := b[last := SetLowBit(b[last])];
    assert c[..last] == b[..last];
    LowBitSet(b[last]);
    ParityOfLast(b);
  }

  // ----- the metadata matters

  /** Any SHA-384, and an HMAC-SHA384 under which the extraction for info1 gives zeros and every
      other one ones, and the expansion reads its counter and returns a block of the first or
      second target. */
  function TwoTargets(sha: Bytes -> Digest384, info1: Bytes, t1: Bytes, t2: Bytes): Suite {
    Suite(_ => Zeros(32), sha, (_, _) => Zeros(32),
          (key: Bytes, m: Bytes) =>
            if m == FromString("key") + info1 + [0] then Zeros(48)
            else if m == [] || m[|m| - 1] == 0 then Copies(255)
            else BlockOf(if key == Zeros(48) then t1 else t2, m[|m| - 1] - 1),
          (_, _, _, _) => Zeros(32))
  }

  lemma {:induction false} TwoTargetsBlock(sha: Bytes -> Digest384, info1: Bytes, t1: Bytes, t2: Bytes, prk: Bytes,
                                           pbrsa: Bytes, i: nat)
    requires 0 < i <= 255
    ensures HkdfT(TwoTargets(sha, info1, t1, t2), prk, pbrsa, i) == BlockOf(if prk == Zeros(48) then t1 else t2, i - 1)
  {
    var m := HkdfT(TwoTargets(sha, info1, t1, t2), prk, pbrsa, i - 1) + pbrsa + [i % 256];
    assert i % 256 == i;
    assert m[|m| - 1] == i;
    assert (FromString("key") + info1 + [0])[|FromString("key") + info1|] == 0;
  }

  lemma {:induction false} TwoTargetsStream(sha: Bytes -> Digest384, info1: Bytes, t1: Bytes, t2: Bytes, prk: Bytes,
                                            pbrsa: Bytes, length: nat)
    requires |t1| == |t2| <= length <= HKDF_LIMIT
    ensures HkdfExpand(TwoTargets(sha, info1, t1, t2), prk, pbrsa, length)[..|t1|] ==
      if prk == Zeros(48) then t1 else t2
  {
    var suite, t := TwoTargets(sha, info1, t1, t2), if prk == Zeros(48) then t1 else t2;
    forall j | 0 <= j < |t1|
      ensures HkdfExpand(suite, prk, pbrsa, length)[j] == t[j]
    {
      StreamByte(HkdfBlock(suite, prk, pbrsa), length, j);
      TwoTargetsBlock(sha, info1, t1, t2, prk, pbrsa, j / 48 + 1);
      ByteOfBlock(t, j, j / 48, j % 48);
    }
  }

  /** Two metadata strings can be given any two odd exponents below the bound: the exponent
      depends on every byte of the metadata. */
  lemma {:induction false} AnyTwoExponents(sha: Bytes -> Digest384, n: nat, info1: Bytes, e1: nat, info2: Bytes,
                                           e2: nat)
      returns (suite: Suite)
    requires UsableModulus(n) && LambdaLen(n) + 16 <= HKDF_LIMIT && info1 != info2
    requires e1 % 2 == 1 && e2 % 2 == 1 && e1 < ExponentBound(n) && e2 < ExponentBound(n)
    ensures suite.sha384 == sha && DerivePublicExponent(suite, n, info1) == Ok(e1)
    ensures DerivePublicExponent(suite, n, info2) == Ok(e2)
  {
    ModulusLenBounds(n);
    var t1, t2 := I2OSP(e1, LambdaLen(n)), I2OSP(e2, LambdaLen(n));
    suite := TwoTargets(sha, info1, t1, t2);
    TwoTargetsExponent(sha, n, info1, e1, e2, info1);
    TwoTargetsExponent(sha, n, info1, e1, e2, info2);
  }

  lemma {:induction false} TwoTargetsExponent(sha: Bytes -> Digest384, n: nat, info1: Bytes, e1: nat, e2: nat,
                                              info: Bytes)
    requires UsableModulus(n) && LambdaLen(n) + 16 <= HKDF_LIMIT
    requires e1 % 2 == 1 && e2 % 2 == 1 && e1 < ExponentBound(n) && e2 < ExponentBound(n)
    ensures DerivePublicExponent(TwoTargets(sha, info1, I2OSP(e1, LambdaLen(n)), I2OSP(e2, LambdaLen(n))), n, info)
      == Ok(if info == info1 then e1 else e2)
  {
    var t1, t2 := I2OSP(e1, LambdaLen(n)), I2OSP(e2, LambdaLen(n));
    TwoTargetsExpanded(sha, n, info1, t1, t2, info);
    if info == info1 {
      ExponentOfTarget(TwoTargets(sha, info1, t1, t2), n, info, e1);
    } else {
      ExponentOfTarget(TwoTargets(sha, info1, t1, t2), n, info, e2);
    }
  }

  lemma {:induction false} ExponentOfTarget(suite: Suite, n: nat, info: Bytes, e: nat)
    requires UsableModulus(n) && LambdaLen(n) + 16 <= HKDF_LIMIT && e % 2 == 1 && e < ExponentBound(n)
    requires Expanded(suite, n, info)[..LambdaLen(n)] == I2OSP(e, LambdaLen(n))
    ensures DerivePublicExponent(suite, n, info) == Ok(e)
  {
    ModulusLenBounds(n);
    TargetShape(e, LambdaLen(n));
    ClampLeaves(Expanded(suite, n, info), I2OSP(e, LambdaLen(n)));
  }

  lemma {:induction false} TwoTargetsExpanded(sha: Bytes -> Digest384, n: nat, info1: Bytes, t1: Bytes, t2: Bytes,
                                              info: Bytes)
    requires LambdaLen(n) + 16 <= HKDF_LIMIT && |t1| == |t2| == LambdaLen(n)
    ensures Expanded(TwoTargets(sha, info1, t1, t2), n, info)[..LambdaLen(n)] == if info == info1 then t1 else t2
  {
    var suite, salt := TwoTargets(sha, info1, t1, t2), I2OSP(n, ModulusLen(n));
    ExtractedApart(sha, info1, t1, t2, info, salt);
    TwoTargetsStream(sha, info1, t1, t2, HkdfExtract(suite, DerivationInput(info), salt), FromString("PBRSA"),
                     LambdaLen(n) + 16);
  }

  lemma {:induction false} ExtractedApart(sha: Bytes -> Digest384, info1: Bytes, t1: Bytes, t2: Bytes, info: Bytes,
                                          salt: Bytes)
    ensures (HkdfExtract(TwoTargets(sha, info1, t1, t2), DerivationInput(info), salt) == Zeros(48)) <==> info == info1
  {
    var m, m1 := FromString("key") + info + [0], FromString("key") + info1 + [0];
    assert m[|m| - 1] == 0;
    assert m[3..|m| - 1] == info && m1[3..|m1| - 1] == info1;
    assert Copies(255)[0] != Zeros(48)[0];
  }

  // ----- a signature belongs to one message

  /** What Verify compares: the hash field of sig^e' mod N, and the hash of eight zero bytes,
      the digest of the framed metadata and message, and some salt. */
  lemma {:induction false} SignatureNamesMessage(suite: Suite, pk: PublicKey, msg: Bytes, info: Bytes, sig: Bytes)
      returns (salt: Bytes)
    requires UsableModulus(pk.N) && Verify(suite, pk, msg, info, sig).Ok?
    ensures |salt| == 48 && ModulusLen(pk.N) >= 98 && DerivePublicExponent(suite, pk.N, info).Ok?
    ensures HashField(pk.N, sig, DerivePublicExponent(suite, pk.N, info).value) ==
      suite.sha384([0, 0, 0, 0, 0, 0, 0, 0]
        + suite.sha384([0x6d, 0x73, 0x67] + I2OSP(|info| % 0x1_0000_0000, 4) + info + msg) + salt)
  {
    AsciiLabels();
    var e := DerivePublicExponent(suite, pk.N, info).value;
    var em := I2OSP(ModExp(OS2IP(sig), e, pk.N), ModulusLen(pk.N));
    salt := MessageBinding(suite, BuildMsgPrime(msg, info), BuildMsgPrime(msg, info), em, EmBits(pk.N));
  }

  /** The 48 bytes before the trailer of sig^e mod N. */
  function HashField(n: nat, sig: Bytes, e: nat): Bytes
    requires UsableModulus(n) && ModulusLen(n) >= 98
  {
    var k := ModulusLen(n);
    I2OSP(ModExp(OS2IP(sig), e, n), k)[k - 49..k - 1]
  }

  /** One signature that is accepted for two messages, or for two metadata strings, whose
      exponents leave the same hash field is a collision of SHA-384: two different framings
      have the same digest, or two different salted hashes of them do. The exponents of equal
      metadata are equal, and so are their hash fields. */
  lemma {:induction false} SignatureBinding(suite: Suite, pk: PublicKey, m1: Bytes, i1: Bytes, m2: Bytes, i2: Bytes,
                                            sig: Bytes)
      returns (s1: Bytes, s2: Bytes)
    requires UsableModulus(pk.N) && Verify(suite, pk, m1, i1, sig).Ok? && Verify(suite, pk, m2, i2, sig).Ok?
    requires |i1| < 0x1_0000_0000 && |i2| < 0x1_0000_0000 && (m1 != m2 || i1 != i2)
    ensures |s1| == 48 && |s2| == 48 && ModulusLen(pk.N) >= 98
    ensures DerivePublicExponent(suite, pk.N, i1).Ok? && DerivePublicExponent(suite, pk.N, i2).Ok?
    ensures i1 == i2 ==>
      (HashField(pk.N, sig, DerivePublicExponent(suite, pk.N, i1).value)
         == HashField(pk.N, sig, DerivePublicExponent(suite, pk.N, i2).value))
    ensures var p1 := [0x6d, 0x73, 0x67] + I2OSP(|i1|, 4) + i1 + m1;
      var p2 := [0x6d, 0x73, 0x67] + I2OSP(|i2|, 4) + i2 + m2;
      && p1 != p2
      && (HashField(pk.N, sig, DerivePublicExponent(suite, pk.N, i1).value)
            == HashField(pk.N, sig, DerivePublicExponent(suite, pk.N, i2).value)
          <==>
          suite.sha384([0, 0, 0, 0, 0, 0, 0, 0] + suite.sha384(p1) + s1)
            == suite.sha384([0, 0, 0, 0, 0, 0, 0, 0] + suite.sha384(p2) + s2))
  {
    AsciiLabels();
    ModUnique(|i1|, 0x1_0000_0000, 0, |i1|);
    ModUnique(|i2|, 0x1_0000_0000, 0, |i2|);
    s1 := SignatureNamesMessage(suite, pk, m1, i1, sig);
    s2 := SignatureNamesMessage(suite, pk, m2, i2, sig);
    if BuildMsgPrime(m1, i1) == BuildMsgPrime(m2, i2) {
      MsgPrimeInjective(m1, i1, m2, i2);
    }
  }

  // ----- two hash fields can each be met

  /** SHA-384 that sends p1 and p2 to copies of 1 and 2, salted hashes of these to h1 and h2,
      and what is hashed to mask with h1 or h2 to the blocks of a mask. */
  function TwoFields(p1: Bytes, h1: Digest384, mask1: Bytes, p2: Bytes, h2: Digest384, mask2: Bytes):
      Bytes -> Digest384
  {
    (x: Bytes) =>
      if x == p1 then Copies(1)
      else if x == p2 then Copies(2)
      else if |x| == 104 then if x[8] == 1 then h1 else h2
      else if |x| == 52 then BlockOf(if x[..48] == h1 then mask1 else mask2, OS2IP(x[48..]))
      else Zeros(48)
  }

  /** The mask under which em holds the data block with a salt of zeros. */
  function MaskFor(em: Bytes): (mask: Bytes)
    requires |em| >= 98
    ensures |mask| == |em| - 49
  {
    var db := DataBlock(|em| - 49, Zeros(48));
    seq(|em| - 49, i requires 0 <= i < |em| - 49 => XorByte(em[i], db[i]))
  }

  lemma {:induction false} MaskOfField(suite: Suite, h: Digest384, mask: Bytes)
    requires |mask| <= 48 * 0x1_0000_0000
    requires forall c: nat :: c < 0x1_0000_0000 ==> suite.sha384(h + I2OSP(c, 4)) == BlockOf(mask, c)
    ensures Mgf1(suite, h, |mask|) == mask
  {
    forall j | 0 <= j < |mask|
      ensures Mgf1(suite, h, |mask|)[j] == mask[j]
    {
      Mgf1IsRfc8017(suite, h, |mask|, j);
      assert suite.sha384(h + I2OSP(j / 48, 4)) == BlockOf(mask, j / 48);
      ByteOfBlock(mask, j, j / 48, j % 48);
    }
  }

  lemma {:induction false} MaskForUnmasks(em: Bytes, t: nat)
    requires |em| >= 98 && t <= 7
    ensures Mask(em[..|em| - 49], MaskFor(em), KeepMask(t)) == DataBlock(|em| - 49, Zeros(48))
  {
    var db := DataBlock(|em| - 49, Zeros(48));
    forall i | 0 <= i < |db|
      ensures XorByte(em[i], MaskFor(em)[i]) == db[i]
    {
      XorBack(em[i], db[i]);
    }
    OneSurvives(db[0], t);
    assert Mask(em[..|em| - 49], MaskFor(em), KeepMask(t)) == [db[0]] + db[1..];
  }

  lemma {:induction false} FieldIsMet(suite: Suite, mp: Bytes, em: Bytes, emBits: nat)
    requires WellFormed(em, emBits) && |em| - 49 <= 48 * 0x1_0000_0000
    requires forall c: nat :: c < 0x1_0000_0000 ==>
      suite.sha384(em[|em| - 49..|em| - 1] + I2OSP(c, 4)) == BlockOf(MaskFor(em), c)
    requires SaltedHash(suite, mp, Zeros(48)) == em[|em| - 49..|em| - 1]
    ensures PssVerify(suite, mp, em, emBits)
  {
    MaskOfField(suite, em[|em| - 49..|em| - 1], MaskFor(em));
    MaskForUnmasks(em, TopBits(emBits));
    BlockOfSalt(suite, mp, |em| - 49, Zeros(48));
  }

  /** Where the hash fields differ, nothing more can be forced: any two well-formed powers of
      one number, under any two exponents for two metadata strings, are accepted for two
      framings under hash functions that give these different digests. */
  lemma {:induction false} DifferentFieldsCollideNot(n: nat, i1: Bytes, e1: nat, p1: Bytes, i2: Bytes, e2: nat,
                                                     p2: Bytes, s: nat)
      returns (suite: Suite)
    requires UsableModulus(n) && LambdaLen(n) + 16 <= HKDF_LIMIT && i1 != i2 && p1 != p2
    requires e1 % 2 == 1 && e2 % 2 == 1 && e1 < ExponentBound(n) && e2 < ExponentBound(n)
    requires |p1| != 104 && |p1| != 52 && |p2| != 104 && |p2| != 52
    requires WellFormed(I2OSP(ModExp(s, e1, n), ModulusLen(n)), EmBits(n))
    requires WellFormed(I2OSP(ModExp(s, e2, n), ModulusLen(n)), EmBits(n))
    requires EmbeddedHash(I2OSP(ModExp(s, e1, n), ModulusLen(n)))
      != EmbeddedHash(I2OSP(ModExp(s, e2, n), ModulusLen(n)))
    ensures DerivePublicExponent(suite, n, i1) == Ok(e1) && DerivePublicExponent(suite, n, i2) == Ok(e2)
    ensures PssVerify(suite, p1, I2OSP(ModExp(s, e1, n), ModulusLen(n)), EmBits(n))
    ensures PssVerify(suite, p2, I2OSP(ModExp(s, e2, n), ModulusLen(n)), EmBits(n))
    ensures suite.sha384(p1) != suite.sha384(p2)
  {
    var em1, em2 := I2OSP(ModExp(s, e1, n), ModulusLen(n)), I2OSP(ModExp(s, e2, n), ModulusLen(n));
    var sha := TwoFields(p1, EmbeddedHash(em1), MaskFor(em1), p2, EmbeddedHash(em2), MaskFor(em2));
    suite := AnyTwoExponents(sha, n, i1, e1, i2, e2);
    FieldsSeen(suite, p1, em1, p2, em2);
    FieldIsMet(suite, p1, em1, EmBits(n));
    FieldIsMet(suite, p2, em2, EmBits(n));
  }

  lemma {:induction false} FieldsSeen(suite: Suite, p1: Bytes, em1: Bytes, p2: Bytes, em2: Bytes)
    requires |em1| >= 98 && |em2| >= 98 && p1 != p2 && EmbeddedHash(em1) != EmbeddedHash(em2)
    requires |p1| != 104 && |p1| != 52 && |p2| != 104 && |p2| != 52
    requires suite.sha384 == TwoFields(p1, EmbeddedHash(em1), MaskFor(em1), p2, EmbeddedHash(em2), MaskFor(em2))
    ensures suite.sha384(p1) != suite.sha384(p2)
    ensures SaltedHash(suite, p1, Zeros(48)) == EmbeddedHash(em1)
    ensures SaltedHash(suite, p2, Zeros(48)) == EmbeddedHash(em2)
    ensures forall c: nat :: c < 0x1_0000_0000 ==>
      suite.sha384(EmbeddedHash(em1) + I2OSP(c, 4)) == BlockOf(MaskFor(em1), c)
    ensures forall c: nat :: c < 0x1_0000_0000 ==>
      suite.sha384(EmbeddedHash(em2) + I2OSP(c, 4)) == BlockOf(MaskFor(em2), c)
  {
    assert Copies(1)[0] != Copies(2)[0];
    assert (Zeros(8) + Copies(1) + Zeros(48))[8] == 1;
    assert (Zeros(8) + Copies(2) + Zeros(48))[8] == 2;
    forall c: nat | c < 0x1_0000_0000
      ensures suite.sha384(EmbeddedHash(em1) + I2OSP(c, 4)) == BlockOf(MaskFor(em1), c)
      ensures suite.sha384(EmbeddedHash(em2) + I2OSP(c, 4)) == BlockOf(MaskFor(em2), c)
    {
      CounterSeen(EmbeddedHash(em1), c);
      CounterSeen(EmbeddedHash(em2), c);
    }
  }

  lemma {:induction false} CounterSeen(h: Bytes, c: nat)
    requires |h| == 48 && c < 0x1_0000_0000
    ensures var x := h + I2OSP(c, 4); |x| == 52 && x[..48] == h && OS2IP(x[48..]) == c
  {
    FourBytes(c);
    assert (h + I2OSP(c, 4))[48..] == I2OSP(c, 4);
  }
}
