/** EMSA-PSS with SHA-384, MGF1-SHA384 and a 48-byte salt (RFC 8017, section 9.1). */
module Pss {
  import opened Wrappers
  import opened Arithmetic
  import opened Bits
  import opened Bytes
  import opened Buffers
  import opened HashSuite

  datatype PssError = EncodingError

  const TRAILER: Byte := 0xbc

  function EmLen(emBits: nat): nat {
    (emBits + 7) / 8
  }

  /** The number of unused leading bits of an encoded message. */
  function TopBits(emBits: nat): (t: nat)
    ensures t <= 7
  {
    8 * EmLen(emBits) - emBits
  }

  /** The bits of the first byte that an encoded message may use. */
  function Keep(emBits: nat): Byte {
    KeepMask(TopBits(emBits))
  }

  /** Hash of M' = eight zero bytes || SHA-384(msg) || salt. */
  function SaltedHash(suite: Suite, msg: Bytes, salt: Bytes): (h: Bytes)
    ensures |h| == HASH_LEN
  {
    suite.sha384(Zeros(8) + suite.sha384(msg) + salt)
  }

  function DataBlock(dbLen: nat, salt: Bytes): (db: Bytes)
    requires dbLen >= SALT_LEN + 1 && |salt| == SALT_LEN
    ensures |db| == dbLen
  {
    Zeros(dbLen - SALT_LEN - 1) + [1] + salt
  }

  /** A data block masked with the stream of h, followed by h and the trailer. */
  function Sealed(suite: Suite, db: Bytes, h: Bytes, emBits: nat): (em: Bytes)
    requires db != []
    ensures |em| == |db| + |h| + 1
  {
    Mask(db, Mgf1(suite, h, |db|), Keep(emBits)) + h + [TRAILER]
  }

  /** EMSA-PSS-ENCODE, section 9.1.1. */
  function PssEncode(suite: Suite, msg: Bytes, salt: Bytes, emBits: nat): (r: Result<Bytes, PssError>)
    requires |salt| == SALT_LEN
    ensures r.Ok? <==> EmLen(emBits) >= HASH_LEN + SALT_LEN + 2
    ensures r.Ok? ==> |r.value| == EmLen(emBits)
  {
    var emLen := EmLen(emBits);
    if emLen < HASH_LEN + SALT_LEN + 2 then Err(EncodingError)
    else
      var h := SaltedHash(suite, msg, salt);
      Ok(Sealed(suite, DataBlock(emLen - HASH_LEN - 1, salt), h, emBits))
  }

  /** The hash and the unmasked data block inside an encoded message of the right length. */
  function EmbeddedHash(em: Bytes): (h: Bytes)
    requires |em| >= HASH_LEN + SALT_LEN + 2
    ensures |h| == HASH_LEN
  {
    em[|em| - HASH_LEN - 1..|em| - 1]
  }

  function Unmasked(suite: Suite, em: Bytes, keep: Byte): (db: Bytes)
    requires |em| >= HASH_LEN + SALT_LEN + 2
    ensures |db| == |em| - HASH_LEN - 1
  {
    var dbLen := |em| - HASH_LEN - 1;
    Mask(em[..dbLen], Mgf1(suite, EmbeddedHash(em), dbLen), keep)
  }

  /** The checks on an encoded message that need no hashing. */
  predicate WellFormed(em: Bytes, emBits: nat) {
    && |em| == EmLen(emBits)
    && |em| >= HASH_LEN + SALT_LEN + 2
    && em[|em| - 1] == TRAILER
    && BitAnd(em[0], HighMask(TopBits(emBits))) == 0
  }

  /** The unmasked data block is zeros, 0x01 and the salt that hashes to h. */
  predicate BlockMatches(suite: Suite, msg: Bytes, db: Bytes, h: Bytes)
    requires |db| >= SALT_LEN + 1
  {
    var psLen := |db| - SALT_LEN - 1;
    && db[..psLen] == Zeros(psLen)
    && db[psLen] == 1
    && h == SaltedHash(suite, msg, db[psLen + 1..])
  }

  /** EMSA-PSS-VERIFY, section 9.1.2. */
  predicate PssVerify(suite: Suite, msg: Bytes, em: Bytes, emBits: nat) {
    && WellFormed(em, emBits)
    && BlockMatches(suite, msg, Unmasked(suite, em, Keep(emBits)), EmbeddedHash(em))
  }

  /** em is what PssEncode makes of msg with some 48-byte salt. */
  ghost predicate IsEncoding(suite: Suite, msg: Bytes, em: Bytes, emBits: nat) {
    exists salt: Bytes :: |salt| == SALT_LEN && PssEncode(suite, msg, salt, emBits) == Ok(em)
  }

  lemma {:induction false} EncodedVerifies(suite: Suite, msg: Bytes, salt: Bytes, emBits: nat)
    requires |salt| == SALT_LEN && EmLen(emBits) >= HASH_LEN + SALT_LEN + 2
    ensures PssVerify(suite, msg, PssEncode(suite, msg, salt, emBits).value, emBits)
  {
    var dbLen := EmLen(emBits) - HASH_LEN - 1;
    BlockOfSalt(suite, msg, dbLen, salt);
    SealedVerifies(suite, msg, DataBlock(dbLen, salt), SaltedHash(suite, msg, salt), emBits);
  }

  lemma {:induction false} SealedVerifies(suite: Suite, msg: Bytes, db: Bytes, h: Bytes, emBits: nat)
    requires |db| == EmLen(emBits) - HASH_LEN - 1 && |db| >= SALT_LEN + 1 && |h| == HASH_LEN
    requires db[0] <= 1 && BlockMatches(suite, msg, db, h)
    ensures PssVerify(suite, msg, Sealed(suite, db, h, emBits), emBits)
  {
    UnmaskMasked(suite, db, h, emBits);
  }

  /** Unmasking what masking produced gives the data block back. */
  lemma {:induction false} UnmaskMasked(suite: Suite, db: Bytes, h: Bytes, emBits: nat)
    requires |db| == EmLen(emBits) - HASH_LEN - 1 && |db| >= SALT_LEN + 1 && |h| == HASH_LEN
    requires db[0] <= 1
    ensures var em := Sealed(suite, db, h, emBits);
      WellFormed(em, emBits) && EmbeddedHash(em) == h && Unmasked(suite, em, Keep(emBits)) == db
  {
    var mask := Mgf1(suite, h, |db|);
    var masked := Mask(db, mask, Keep(emBits));
    PartsOfEncoded(masked, h);
    HighBitsZero(masked[0], TopBits(emBits));
    OneSurvives(db[0], TopBits(emBits));
    MaskTwice(db, mask, Keep(emBits));
  }

  lemma {:induction false} PartsOfEncoded(masked: Bytes, h: Bytes)
    requires |masked| >= SALT_LEN + 1 && |h| == HASH_LEN
    ensures var em := masked + h + [TRAILER];
      em[..|masked|] == masked && EmbeddedHash(em) == h && em[|em| - 1] == TRAILER && em[0] == masked[0]
  {
  }

  lemma {:induction false} BlockOfSalt(suite: Suite, msg: Bytes, dbLen: nat, salt: Bytes)
    requires dbLen >= SALT_LEN + 1 && |salt| == SALT_LEN
    ensures BlockMatches(suite, msg, DataBlock(dbLen, salt), SaltedHash(suite, msg, salt))
    ensures DataBlock(dbLen, salt)[0] <= 1 && DataBlock(dbLen, salt)[dbLen - SALT_LEN..] == salt
  {
    var db := DataBlock(dbLen, salt);
    assert db[dbLen - SALT_LEN..] == salt;
    assert db[..dbLen - SALT_LEN - 1] == Zeros(dbLen - SALT_LEN - 1);
  }

  /** At most seven bits are dropped, so the separator byte 0x01 is never damaged. */
  lemma {:induction false} OneSurvives(a: Byte, t: nat)
    requires t <= 7 && a <= 1
    ensures BitAnd(a, KeepMask(t)) == a
  {
    HighBitsZero(a, t);
    PowMonotone(2, 1, 8 - t);
    assert Pow(2, 1) == 2;
  }

  lemma {:induction false} VerifiedIsEncoded(suite: Suite, msg: Bytes, em: Bytes, emBits: nat) returns (salt: Bytes)
    requires PssVerify(suite, msg, em, emBits)
    ensures |salt| == SALT_LEN && PssEncode(suite, msg, salt, emBits) == Ok(em)
  {
    var db := Unmasked(suite, em, Keep(emBits));
    var psLen := |db| - SALT_LEN - 1;
    HighBitsZero(em[0], TopBits(emBits));
    SplitDataBlock(db, psLen);
    SplitEncoded(em);
    salt := db[psLen + 1..];
    Reencode(suite, msg, em[..|em| - HASH_LEN - 1], EmbeddedHash(em), salt, emBits);
  }

  lemma {:induction false} SplitEncoded(em: Bytes)
    requires |em| >= HASH_LEN + SALT_LEN + 2 && em[|em| - 1] == TRAILER
    ensures em == em[..|em| - HASH_LEN - 1] + EmbeddedHash(em) + [TRAILER]
    ensures em[..|em| - HASH_LEN - 1][0] == em[0]
  {
  }

  /** Masking the unmasked data block again rebuilds the encoded message. */
  lemma {:induction false} Reencode(suite: Suite, msg: Bytes, masked: Bytes, h: Bytes, salt: Bytes, emBits: nat)
    requires |salt| == SALT_LEN && EmLen(emBits) >= HASH_LEN + SALT_LEN + 2
    requires h == SaltedHash(suite, msg, salt) && |masked| == EmLen(emBits) - HASH_LEN - 1
    requires BitAnd(masked[0], Keep(emBits)) == masked[0]
    requires Mask(masked, Mgf1(suite, h, |masked|), Keep(emBits)) == DataBlock(|masked|, salt)
    ensures PssEncode(suite, msg, salt, emBits) == Ok(masked + h + [TRAILER])
  {
    MaskTwice(masked, Mgf1(suite, h, |masked|), Keep(emBits));
  }

  lemma {:induction false} SplitDataBlock(db: Bytes, psLen: nat)
    requires |db| == psLen + 1 + SALT_LEN && db[..psLen] == Zeros(psLen) && db[psLen] == 1
    ensures db == DataBlock(|db|, db[psLen + 1..])
  {
    assert db == db[..psLen] + [db[psLen]] + db[psLen + 1..];
  }

  /** Verification accepts exactly the encodings of the message, for every length. */
  lemma {:induction false} PssInverse(suite: Suite, msg: Bytes, em: Bytes, emBits: nat)
    ensures PssVerify(suite, msg, em, emBits) <==> IsEncoding(suite, msg, em, emBits)
  {
    if PssVerify(suite, msg, em, emBits) {
      var salt := VerifiedIsEncoded(suite, msg, em, emBits);
    } else if IsEncoding(suite, msg, em, emBits) {
      var salt: Bytes :| |salt| == SALT_LEN && PssEncode(suite, msg, salt, emBits) == Ok(em);
      EncodedVerifies(suite, msg, salt, emBits);
    }
  }

  lemma {:induction false} SealedInjective(suite: Suite, d1: Bytes, h1: Bytes, d2: Bytes, h2: Bytes, emBits: nat)
    requires |d1| == |d2| == EmLen(emBits) - HASH_LEN - 1 && |d1| >= SALT_LEN + 1
    requires |h1| == |h2| == HASH_LEN && d1[0] <= 1 && d2[0] <= 1
    requires Sealed(suite, d1, h1, emBits) == Sealed(suite, d2, h2, emBits)
    ensures d1 == d2
  {
    UnmaskMasked(suite, d1, h1, emBits);
    UnmaskMasked(suite, d2, h2, emBits);
  }

  /** Encoding is injective in the salt: a signature determines the salt it was made with. */
  lemma {:induction false} SaltRecovered(suite: Suite, msg: Bytes, s1: Bytes, s2: Bytes, emBits: nat)
    requires |s1| == SALT_LEN && |s2| == SALT_LEN && EmLen(emBits) >= HASH_LEN + SALT_LEN + 2
    requires PssEncode(suite, msg, s1, emBits) == PssEncode(suite, msg, s2, emBits)
    ensures s1 == s2
  {
    var dbLen := EmLen(emBits) - HASH_LEN - 1;
    BlockOfSalt(suite, msg, dbLen, s1);
    BlockOfSalt(suite, msg, dbLen, s2);
    SealedInjective(suite, DataBlock(dbLen, s1), SaltedHash(suite, msg, s1),
                    DataBlock(dbLen, s2), SaltedHash(suite, msg, s2), emBits);
  }

  /** An encoded message has at most emBits bits. */
  lemma {:induction false} EncodingBound(suite: Suite, msg: Bytes, salt: Bytes, emBits: nat)
    requires |salt| == SALT_LEN && EmLen(emBits) >= HASH_LEN + SALT_LEN + 2
    ensures OS2IP(PssEncode(suite, msg, salt, emBits).value) < Pow(2, emBits)
  {
    var em := PssEncode(suite, msg, salt, emBits).value;
    HighBitsZero(em[0], TopBits(emBits));
    ValueBoundByHead(em, TopBits(emBits));
  }

  // ----- the buffer-filling code

  /** pssEncode, given the 48 bytes read from rng. */
  method EncodeBuffer(suite: Suite, msg: Bytes, salt: Bytes, emBits: nat) returns (r: Result<Bytes, PssError>)
    requires |salt| == SALT_LEN
    ensures r == PssEncode(suite, msg, salt, emBits)
  {
    var emLen := EmLen(emBits);
    if emLen < HASH_LEN + SALT_LEN + 2 {
      return Err(EncodingError);
    }
    var h := HashOfPrimedMessage(suite, msg, salt);
    var dbLen := emLen - HASH_LEN - 1;
    var db := NewDataBlock(dbLen, salt);
    var mask := Mgf1SHA384(suite, h, dbLen);
    MaskInPlace(db, mask, 8 * emLen - emBits);
    var em := Assemble(emLen, db[..], h);
    return Ok(em);
  }

  /** DB = PS || 0x01 || salt, written into a zeroed buffer. */
  method NewDataBlock(dbLen: nat, salt: Bytes) returns (db: array<Byte>)
    requires dbLen >= SALT_LEN + 1 && |salt| == SALT_LEN
    ensures fresh(db) && db[..] == DataBlock(dbLen, salt)
  {
    var psLen := dbLen - SALT_LEN - 1;
    db := new Byte[dbLen](_ => 0);
    db[psLen] := 1;
    assert db[..psLen] == Zeros(psLen);
    var n := CopyInto(db, psLen + 1, salt);
    SplitDataBlock(db[..], psLen);
  }

  /** XOR a buffer with a mask and clear its leftmost bits. */
  method MaskInPlace(db: array<Byte>, mask: Bytes, topBits: nat)
    requires 0 < db.Length == |mask| && topBits <= 7
    modifies db
    ensures db[..] == Mask(old(db[..]), mask, KeepMask(topBits))
  {
    XorBytes(db, mask);
    MasksAreShifts(topBits);
    db[0] := BitAnd(db[0], 0xFF / Pow(2, topBits));
  }

  /** EM = maskedDB || H || 0xbc, copied into a zeroed buffer. */
  method Assemble(emLen: nat, maskedDB: Bytes, h: Bytes) returns (em: Bytes)
    requires |h| == HASH_LEN && emLen == |maskedDB| + HASH_LEN + 1
    ensures em == maskedDB + h + [TRAILER]
  {
    var buf := new Byte[emLen](_ => 0);
    var n := CopyInto(buf, 0, maskedDB);
    n := CopyInto(buf, |maskedDB|, h);
    buf[emLen - 1] := TRAILER;
    assert buf[..emLen - 1] == maskedDB + h;
    return buf[..];
  }

  method HashOfPrimedMessage(suite: Suite, msg: Bytes, salt: Bytes) returns (h: Bytes)
    requires |salt| == SALT_LEN
    ensures h == SaltedHash(suite, msg, salt)
  {
    var mHash := suite.sha384(msg);
    var mPrime := new Byte[8 + HASH_LEN + SALT_LEN](_ => 0);
    var n := CopyInto(mPrime, 8, mHash);
    n := CopyInto(mPrime, 8 + HASH_LEN, salt);
    assert mPrime[..] == Zeros(8) + mHash + salt;
    return suite.sha384(mPrime[..]);
  }

  /** pssVerify: each check returns at once when it fails. */
  method VerifyBuffer(suite: Suite, msg: Bytes, em: Bytes, emBits: nat) returns (ok: bool)
    ensures ok == PssVerify(suite, msg, em, emBits)
  {
    var emLen := EmLen(emBits);
    if |em| != emLen || emLen < HASH_LEN + SALT_LEN + 2 || em[emLen - 1] != TRAILER {
      return false;
    }
    var topBits := 8 * emLen - emBits;
    MasksAreShifts(topBits);
    if BitAnd(em[0], (0xFF * Pow(2, 8 - topBits)) % 256) != 0 {
      return false;
    }
    assert WellFormed(em, emBits);
    var dbLen := emLen - HASH_LEN - 1;
    var mask := Mgf1SHA384(suite, EmbeddedHash(em), dbLen);
    var db := UnmaskBuffer(em[..dbLen], mask, topBits);
    assert db == Unmasked(suite, em, Keep(emBits));
    ok := CheckBlock(suite, msg, db, EmbeddedHash(em));
  }

  method CheckBlock(suite: Suite, msg: Bytes, db: Bytes, h: Bytes) returns (ok: bool)
    requires |db| >= SALT_LEN + 1
    ensures ok == BlockMatches(suite, msg, db, h)
  {
    var psLen := |db| - SALT_LEN - 1;
    var separated := HasSeparator(db, psLen);
    if !separated {
      return false;
    }
    var hPrime := HashOfPrimedMessage(suite, msg, db[psLen + 1..]);
    return h == hPrime;
  }

  /** A copy of the masked part of em, XORed with the mask. */
  method UnmaskBuffer(masked: Bytes, mask: Bytes, topBits: nat) returns (plain: Bytes)
    requires 0 < |masked| == |mask| && topBits <= 7
    ensures plain == Mask(masked, mask, KeepMask(topBits))
  {
    var db := new Byte[|masked|](_ => 0);
    var n := CopyInto(db, 0, masked);
    assert db[..] == masked;
    MaskInPlace(db, mask, topBits);
    return db[..];
  }

  /** The padding loop of pssVerify: psLen zero bytes, then 0x01. */
  method HasSeparator(db: Bytes, psLen: nat) returns (ok: bool)
    requires psLen < |db|
    ensures ok <==> db[..psLen] == Zeros(psLen) && db[psLen] == 1
  {
    for i := 0 to psLen
      invariant forall k :: 0 <= k < i ==> db[k] == 0
    {
      if db[i] != 0 {
        assert db[..psLen][i] != Zeros(psLen)[i];
        return false;
      }
    }
    return db[psLen] == 1;
  }
}
