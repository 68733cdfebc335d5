/** The encoded message of RFC 8017, section 9.1, byte by byte, and what it binds. */
module PssLayout {
  import opened Arithmetic
  import opened Bits
  import opened Bytes
  import opened HashSuite
  import opened Pss

  // ----- the bytes of an encoded message

  /** The last 49 bytes: the hash of eight zero bytes, the message hash and the salt, and the
      trailer 0xbc. */
  lemma {:induction false} EncodingEnds(suite: Suite, msg: Bytes, salt: Bytes, emBits: nat)
    requires |salt| == 48 && (emBits + 7) / 8 >= 98
    ensures PssEncode(suite, msg, salt, emBits).Ok?
    ensures var (em, n) := (PssEncode(suite, msg, salt, emBits).value, (emBits + 7) / 8);
      && |em| == n && em[n - 1] == 0xbc
      && em[n - 49..n - 1] == suite.sha384([0, 0, 0, 0, 0, 0, 0, 0] + suite.sha384(msg) + salt)
  {
    EightZeros();
    var h := SaltedHash(suite, msg, salt);
    var dbLen := (emBits + 7) / 8 - 49;
    PartsOfEncoded(Mask(DataBlock(dbLen, salt), Mgf1(suite, h, dbLen), Keep(emBits)), h);
  }

  lemma {:induction false} EightZeros()
    ensures Zeros(8) == [0, 0, 0, 0, 0, 0, 0, 0]
  {
  }

  /** Byte j of PS || 0x01 || salt, in an encoded message of n bytes. */
  function Plain(n: nat, salt: Bytes, j: nat): Byte
    requires |salt| == 48 && j + 49 < n
  {
    if j + 98 < n then 0 else if j + 98 == n then 1 else salt[j + 97 - n]
  }

  lemma {:induction false} PlainIsData(n: nat, salt: Bytes, j: nat)
    requires |salt| == 48 && n >= 98 && j + 49 < n
    ensures DataBlock(n - 49, salt)[j] == Plain(n, salt, j)
  {
  }

  /** Each byte before them is XORed with a byte of the SHA-384 blocks of that hash and a
      counter; of the first byte only the bits that emBits leaves are kept. */
  lemma {:induction false} EncodingByte(suite: Suite, msg: Bytes, salt: Bytes, emBits: nat, j: nat)
    requires |salt| == 48 && (emBits + 7) / 8 >= 98 && j + 49 < (emBits + 7) / 8
    ensures PssEncode(suite, msg, salt, emBits).Ok? && Pow(2, 8 - (8 * ((emBits + 7) / 8) - emBits)) > 0
    ensures var (em, n) := (PssEncode(suite, msg, salt, emBits).value, (emBits + 7) / 8);
      var h := suite.sha384([0, 0, 0, 0, 0, 0, 0, 0] + suite.sha384(msg) + salt);
      var mask := suite.sha384(h + I2OSP(j / 48 % 0x1_0000_0000, 4))[j % 48];
      && |em| == n
      && em[j] ==
           if j == 0 then BitXor(Plain(n, salt, 0), mask) % Pow(2, 8 - (8 * n - emBits))
           else BitXor(Plain(n, salt, j), mask)
  {
    EightZeros();
    var n, h := (emBits + 7) / 8, SaltedHash(suite, msg, salt);
    StreamByte(Mgf1Block(suite, h), n - 49, j);
    PlainIsData(n, salt, j);
    LowBits(XorByte(Plain(n, salt, 0), Mgf1(suite, h, n - 49)[0]), TopBits(emBits));
    MaskedByte(DataBlock(n - 49, salt), Mgf1(suite, h, n - 49), Keep(emBits), h + [TRAILER], j);
    assert Mask(DataBlock(n - 49, salt), Mgf1(suite, h, n - 49), Keep(emBits)) + h + [TRAILER]
      == Mask(DataBlock(n - 49, salt), Mgf1(suite, h, n - 49), Keep(emBits)) + (h + [TRAILER]);
  }

  lemma {:induction false} MaskedByte(db: Bytes, mask: Bytes, keep: Byte, tail: Bytes, j: nat)
    requires j < |db| == |mask|
    ensures (Mask(db, mask, keep) + tail)[j] ==
      if j == 0 then BitAnd(XorByte(db[0], mask[0]), keep) else XorByte(db[j], mask[j])
  {
  }

  // ----- an encoded message belongs to one message

  /** An encoded message that is accepted for two messages is a collision of salted hashes:
      eight zero bytes, the hash of the message and the salt, for the same salt. */
  lemma {:induction false} MessageBinding(suite: Suite, m1: Bytes, m2: Bytes, em: Bytes, emBits: nat)
      returns (salt: Bytes)
    requires PssVerify(suite, m1, em, emBits) && PssVerify(suite, m2, em, emBits)
    ensures |salt| == 48 && |em| >= 98
    ensures em[|em| - 49..|em| - 1] == suite.sha384([0, 0, 0, 0, 0, 0, 0, 0] + suite.sha384(m1) + salt)
    ensures em[|em| - 49..|em| - 1] == suite.sha384([0, 0, 0, 0, 0, 0, 0, 0] + suite.sha384(m2) + salt)
  {
    EightZeros();
    var db := Unmasked(suite, em, Keep(emBits));
    salt := db[|db| - 48..];
  }

  // ----- and the message matters

  /** A byte that is neither a nor b nor avoid. */
  function OtherByte(a: int, b: int, avoid: int): (c: Byte)
    ensures c != a && c != b && c != avoid
  {
    if a != 0 && b != 0 && avoid != 0 then 0
    else if a != 1 && b != 1 && avoid != 1 then 1
    else if a != 2 && b != 2 && avoid != 2 then 2 else 3
  }

  function Copies(c: Byte): Digest384 {
    seq(48, _ => c)
  }

  /** Hashes m1 and m2 to the copies of two bytes, and of a longer string shows the ninth. */
  function TellingSuite(m1: Bytes, c1: Byte, m2: Bytes, c2: Byte): Suite {
    Suite(_ => Zeros(32),
          (x: Bytes) =>
            if x == m1 then Copies(c1) else if x == m2 then Copies(c2) else if |x| > 8 then Copies(x[8]) else Zeros(48),
          (_, _) => Zeros(32), (_, _) => Zeros(48), (_, _, _, _) => Zeros(32))
  }

  function Ninth(m: Bytes): int {
    if |m| > 8 then m[8] else -1
  }

  lemma {:induction false} ToldApart(m1: Bytes, c1: Byte, m2: Bytes, c2: Byte, m: Bytes, salt: Bytes)
    requires m1 != m2 && (m == m1 || m == m2) && c1 != c2 && |salt| == 48
    requires c1 != Ninth(m1) && c1 != Ninth(m2) && c2 != Ninth(m1) && c2 != Ninth(m2)
    ensures SaltedHash(TellingSuite(m1, c1, m2, c2), m, salt) == Copies(if m == m1 then c1 else c2)
  {
    var suite := TellingSuite(m1, c1, m2, c2);
    var c := if m == m1 then c1 else c2;
    assert suite.sha384(m) == Copies(c);
    var x := Zeros(8) + Copies(c) + salt;
    assert x[8] == c;
  }

  /** Different messages are told apart: for some hash functions the encoding of the one is
      rejected for the other, whatever the salt and the size. */
  lemma {:induction false} MessageMatters(m1: Bytes, m2: Bytes, salt: Bytes, emBits: nat) returns (suite: Suite)
    requires m1 != m2 && |salt| == 48 && (emBits + 7) / 8 >= 98
    ensures PssEncode(suite, m1, salt, emBits).Ok?
    ensures PssVerify(suite, m1, PssEncode(suite, m1, salt, emBits).value, emBits)
    ensures !PssVerify(suite, m2, PssEncode(suite, m1, salt, emBits).value, emBits)
  {
    var c1 := OtherByte(Ninth(m1), Ninth(m2), -1);
    var c2 := OtherByte(Ninth(m1), Ninth(m2), c1);
    suite := TellingSuite(m1, c1, m2, c2);
    EncodedVerifies(suite, m1, salt, emBits);
    var em := PssEncode(suite, m1, salt, emBits).value;
    if PssVerify(suite, m2, em, emBits) {
      HashesDiffer(m1, c1, m2, c2, em, emBits);
    }
  }

  lemma {:induction false} HashesDiffer(m1: Bytes, c1: Byte, m2: Bytes, c2: Byte, em: Bytes, emBits: nat)
    requires m1 != m2 && c1 != c2
    requires c1 != Ninth(m1) && c1 != Ninth(m2) && c2 != Ninth(m1) && c2 != Ninth(m2)
    requires PssVerify(TellingSuite(m1, c1, m2, c2), m1, em, emBits)
    ensures !PssVerify(TellingSuite(m1, c1, m2, c2), m2, em, emBits)
  {
    var suite := TellingSuite(m1, c1, m2, c2);
    var db := Unmasked(suite, em, Keep(emBits));
    ToldApart(m1, c1, m2, c2, m1, db[|db| - 48..]);
    ToldApart(m1, c1, m2, c2, m2, db[|db| - 48..]);
    assert Copies(c1)[0] != Copies(c2)[0];
  }
}
