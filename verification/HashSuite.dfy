/** The hash functions the system is built from, and the two ways it stretches their
    output: MGF1 (RFC 8017, appendix B.2.1) and HKDF (RFC 5869, section 2). */
module HashSuite {
  import opened Arithmetic
  import opened Bytes

  const HASH_LEN: nat := 48
  const SALT_LEN: nat := 48
  const HKDF_LIMIT: nat := 255 * 48

  type Digest384 = d: Bytes | |d| == 48 witness Zeros(48)
  type Digest256 = d: Bytes | |d| == 32 witness Zeros(32)

  /** Unknown hash functions: only the length of what they return is known. */
  datatype Suite = Suite(
    sha256: Bytes -> Digest256,
    sha384: Bytes -> Digest384,
    hmacSHA256: (Bytes, Bytes) -> Digest256,   // key, message
    hmacSHA384: (Bytes, Bytes) -> Digest384,   // key, message
    argon2id: (Bytes, Bytes, nat, nat) -> Digest256)   // password, salt, iterations, memory in KiB

  // ----- streams of 48-byte blocks

  type Blocks = nat -> Digest384

  /** The first count blocks, concatenated. */
  function Concat(block: Blocks, count: nat): (out: Bytes)
    ensures |out| == 48 * count
  {
    if count == 0 then [] else Concat(block, count - 1) + block(count - 1)
  }

  /** The first n bytes of the endless concatenation block(0) || block(1) || ... */
  function Stream(block: Blocks, n: nat): (out: Bytes)
    ensures |out| == n
  {
    Concat(block, (n + 47) / 48)[..n]
  }

  lemma {:induction false} ConcatPrefix(block: Blocks, c: nat, d: nat)
    requires c <= d
    ensures Concat(block, d)[..48 * c] == Concat(block, c)
    decreases d
  {
    if c == d {
    } else {
      ConcatPrefix(block, c, d - 1);
      assert Concat(block, d)[..48 * c] == Concat(block, d - 1)[..48 * c];
    }
  }

  /** How many blocks were concatenated does not matter once there are enough. */
  lemma {:induction false} StreamFromEnough(block: Blocks, n: nat, count: nat)
    requires n <= 48 * count
    ensures Concat(block, count)[..n] == Stream(block, n)
  {
    var c := (n + 47) / 48;
    ConcatPrefix(block, c, count);
    assert Concat(block, count)[..n] == Concat(block, count)[..48 * c][..n];
  }

  /** Byte j of a stream is byte j % 48 of block j / 48. */
  lemma {:induction false} StreamByte(block: Blocks, n: nat, j: nat)
    requires j < n
    ensures Stream(block, n)[j] == block(j / 48)[j % 48]
  {
    var q := j / 48;
    StreamFromEnough(block, j + 1, q + 1);
    StreamPrefix(block, j + 1, n);
    assert Concat(block, q + 1)[j] == block(q)[j - 48 * q];
  }

  /** A shorter output is a prefix of a longer one. */
  lemma {:induction false} StreamPrefix(block: Blocks, m: nat, n: nat)
    requires m <= n
    ensures Stream(block, n)[..m] == Stream(block, m)
  {
    StreamFromEnough(block, m, (n + 47) / 48);
  }

  // ----- MGF1

  function Mgf1Block(suite: Suite, seed: Bytes): Blocks {
    (i: nat) => suite.sha384(seed + I2OSP(i % 0x1_0000_0000, 4))
  }

  function Mgf1(suite: Suite, seed: Bytes, length: nat): (mask: Bytes)
    ensures |mask| == length
  {
    Stream(Mgf1Block(suite, seed), length)
  }

  /** Below the limit of 2^32 blocks the 32-bit counter never wraps: MGF1 as the RFC defines it. */
  lemma {:induction false} Mgf1IsRfc8017(suite: Suite, seed: Bytes, length: nat, j: nat)
    requires j < length <= 48 * 0x1_0000_0000
    ensures Mgf1(suite, seed, length)[j] == suite.sha384(seed + I2OSP(j / 48, 4))[j % 48]
  {
    StreamByte(Mgf1Block(suite, seed), length, j);
    ModUnique(j / 48, 0x1_0000_0000, 0, j / 48);
  }

  // ----- HKDF

  function HkdfExtract(suite: Suite, ikm: Bytes, salt: Bytes): Bytes {
    suite.hmacSHA384(salt, ikm)
  }

  /** T(i) of HKDF-Expand; the counter is a single byte, and wraps. */
  function HkdfT(suite: Suite, prk: Bytes, info: Bytes, i: nat): (t: Bytes)
    ensures i > 0 ==> |t| == 48
  {
    if i == 0 then [] else suite.hmacSHA384(prk, HkdfT(suite, prk, info, i - 1) + info + [i % 256])
  }

  function HkdfBlock(suite: Suite, prk: Bytes, info: Bytes): Blocks {
    (i: nat) => HkdfT(suite, prk, info, i + 1)
  }

  function HkdfExpand(suite: Suite, prk: Bytes, info: Bytes, length: nat): (okm: Bytes)
    ensures |okm| == length
  {
    Stream(HkdfBlock(suite, prk, info), length)
  }

  /** T(i) as the RFC defines it: the counter is one octet that stays below 256. */
  function Rfc5869T(suite: Suite, prk: Bytes, info: Bytes, i: nat): (t: Bytes)
    requires i <= 255
    ensures i > 0 ==> |t| == 48
  {
    if i == 0 then [] else suite.hmacSHA384(prk, Rfc5869T(suite, prk, info, i - 1) + info + [i])
  }

  lemma {:induction false} CounterDoesNotWrap(suite: Suite, prk: Bytes, info: Bytes, i: nat)
    requires i <= 255
    ensures HkdfT(suite, prk, info, i) == Rfc5869T(suite, prk, info, i)
  {
    if i == 0 {
    } else {
      CounterDoesNotWrap(suite, prk, info, i - 1);
      ModUnique(i, 256, 0, i);
    }
  }

  /** Up to the limit of 255 blocks, HKDF-Expand is the first octets of T(1) || T(2) || ... */
  lemma {:induction false} HkdfIsRfc5869(suite: Suite, prk: Bytes, info: Bytes, length: nat, j: nat)
    requires j < length <= HKDF_LIMIT
    ensures HkdfExpand(suite, prk, info, length)[j] == Rfc5869T(suite, prk, info, j / 48 + 1)[j % 48]
  {
    StreamByte(HkdfBlock(suite, prk, info), length, j);
    CounterDoesNotWrap(suite, prk, info, j / 48 + 1);
  }
}
