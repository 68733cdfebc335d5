/** The public metadata bound to a token, and the hourly time bucket inside it. */
module Metadata {
  import opened Wrappers
  import opened Arithmetic
  import opened Bits
  import opened Bytes

  const UINT32: nat := 0x1_0000_0000

  type Uint32 = n: nat | n < 0x1_0000_0000

  datatype TrustMetadata = TrustMetadata(
    challengeClass: Byte, temperatureBucket: Byte, deviceClass: Byte, timeBucket: Uint32)

  datatype MetadataError = ErrInvalidMetadata

  /** TrustMetadata.Encode: three bytes, then the time bucket by shifts and truncation. */
  function Encode(m: TrustMetadata): (b: Bytes)
    ensures |b| == 7
  {
    var t := m.timeBucket;
    [m.challengeClass, m.temperatureBucket, m.deviceClass,
     t / 0x100_0000 % 256, t / 0x1_0000 % 256, t / 0x100 % 256, t % 256]
  }

  /** DecodeMetadata: the time bucket is put together with shifts and bitwise or. */
  function Decode(b: Bytes): (r: Result<TrustMetadata, MetadataError>)
    ensures r.Ok? <==> |b| == 7
  {
    if |b| != 7 then Err(ErrInvalidMetadata)
    else
      OrOfBytes(b[3], b[4], b[5], b[6]);
      Ok(TrustMetadata(b[0], b[1], b[2], JoinBytes(b[3], b[4], b[5], b[6])))
  }

  function JoinBytes(a: nat, b: nat, c: nat, d: nat): nat {
    BitOr(BitOr(BitOr(a * 0x100_0000, b * 0x1_0000), c * 0x100), d)
  }

  /** Bitwise or of bits that do not overlap is addition. */
  lemma {:induction false} OrDisjoint(x: nat, y: nat, k: nat)
    requires y < Pow(2, k)
    ensures BitOr(x * Pow(2, k), y) == x * Pow(2, k) + y
    decreases k
  {
    if k == 0 {
      OrZero(x);
    } else {
      OrDisjoint(x, y / 2, k - 1);
      DoubleProduct(x, Pow(2, k - 1));
      OrEven(x * Pow(2, k - 1), y);
    }
  }

  lemma {:induction false} DoubleProduct(x: nat, w: nat)
    ensures x * (2 * w) == 2 * (x * w)
  {
  }

  lemma {:induction false} OrEven(h: nat, y: nat)
    ensures BitOr(2 * h, y) == 2 * BitOr(h, y / 2) + y % 2
  {
  }

  lemma {:induction false} Powers()
    ensures Pow(2, 8) == 0x100 && Pow(2, 16) == 0x1_0000 && Pow(2, 24) == 0x100_0000
  {
    ByteWidth();
    PowAdd(2, 8, 8);
    PowAdd(2, 16, 8);
  }

  lemma {:induction false} OrOfBytes(a: Byte, b: Byte, c: Byte, d: Byte)
    ensures JoinBytes(a, b, c, d)
      == a * 0x100_0000 + b * 0x1_0000 + c * 0x100 + d
  {
    Powers();
    OrDisjoint(a, b * 0x1_0000, 24);
    OrDisjoint(a * 0x100 + b, c * 0x100, 16);
    OrDisjoint(a * 0x1_0000 + b * 0x100 + c, d, 8);
  }

  lemma {:induction false} SplitUint32(t: Uint32)
    ensures t / 0x100_0000 % 256 * 0x100_0000 + t / 0x1_0000 % 256 * 0x1_0000 + t / 0x100 % 256 * 0x100 + t % 256 == t
  {
    var a, b, c := t / 0x100, t / 0x1_0000, t / 0x100_0000;
    assert b == a / 256 && c == b / 256 && c < 256;
    assert t == a * 256 + t % 256 && a == b * 256 + a % 256 && b == c * 256 + b % 256;
  }

  /** The seven bytes: class, bucket, device, and the time bucket as a big-endian number. */
  lemma {:induction false} EncodedLayout(m: TrustMetadata)
    ensures var b := Encode(m);
      && |b| == 7 && b[0] == m.challengeClass && b[1] == m.temperatureBucket && b[2] == m.deviceClass
      && b[3] as int * 0x100_0000 + b[4] as int * 0x1_0000 + b[5] as int * 0x100 + b[6] as int == m.timeBucket
  {
    SplitUint32(m.timeBucket);
  }

  /** Decoding inverts encoding on every metadata value. */
  lemma {:induction false} MetadataRoundTrip(m: TrustMetadata)
    ensures Decode(Encode(m)) == Ok(m)
  {
    var b := Encode(m);
    OrOfBytes(b[3], b[4], b[5], b[6]);
    SplitUint32(m.timeBucket);
  }

  /** Encoding inverts decoding on every byte string that decodes: no two byte strings mean
      the same metadata. */
  lemma {:induction false} MetadataCanonical(b: Bytes)
    requires Decode(b).Ok?
    ensures Encode(Decode(b).value) == b
  {
    OrOfBytes(b[3], b[4], b[5], b[6]);
    DigitsOf(b[3], b[4], b[5], b[6]);
  }

  lemma {:induction false} DigitsOf(a: Byte, b: Byte, c: Byte, d: Byte)
    ensures var t := a * 0x100_0000 + b * 0x1_0000 + c * 0x100 + d;
      t / 0x100_0000 % 256 == a && t / 0x1_0000 % 256 == b && t / 0x100 % 256 == c && t % 256 == d
  {
    var t := a * 0x100_0000 + b * 0x1_0000 + c * 0x100 + d;
    assert t / 0x100 == a * 0x1_0000 + b * 0x100 + c;
    assert t / 0x1_0000 == a * 0x100 + b;
    assert t / 0x100_0000 == a;
  }

  /** Encode writes the seven bytes of a buffer by index. */
  method EncodeBuffer(m: TrustMetadata) returns (b: Bytes)
    ensures b == Encode(m)
  {
    var buf := new Byte[7](_ => 0);
    buf[0] := m.challengeClass;
    buf[1] := m.temperatureBucket;
    buf[2] := m.deviceClass;
    buf[3] := m.timeBucket / 0x100_0000 % 256;
    buf[4] := m.timeBucket / 0x1_0000 % 256;
    buf[5] := m.timeBucket / 0x100 % 256;
    buf[6] := m.timeBucket % 256;
    return buf[..];
  }

  // ----- time

  /** Go's integer division, which truncates toward zero. */
  function Quot(a: int, d: int): int
    requires d > 0
  {
    if a >= 0 then a / d else -((-a) / d)
  }

  /** TimeBucketFromTime on Unix seconds, with its conversion to uint32. */
  function TimeBucketFromTime(unix: int): Uint32 {
    Quot(unix, 3600) % 0x1_0000_0000
  }

  /** The timestamp that siteverify reports: the uint32 product of the bucket and 3600. */
  function Timestamp(timeBucket: Uint32): Uint32 {
    timeBucket * 3600 % 0x1_0000_0000
  }

  /** The bucket numbers the hours since 1970. */
  lemma {:induction false} BucketIsHour(unix: int)
    requires 0 <= unix < 3600 * 0x1_0000_0000
    ensures 3600 * TimeBucketFromTime(unix) <= unix < 3600 * TimeBucketFromTime(unix) + 3600
  {
    var h := unix / 3600;
    assert h % 0x1_0000_0000 == h;
  }

  /** One second after the last hour that a uint32 timestamp can name. */
  const END_OF_TIMESTAMPS: int := 1193047 * 3600

  /** The reported timestamp is the start of the hour of issue exactly for times from 1970 up
      to the hour in which the uint32 product overflows. */
  lemma {:induction false} TimestampExact(unix: int)
    ensures var t := Timestamp(TimeBucketFromTime(unix));
      t <= unix < t + 3600 <==> 0 <= unix < END_OF_TIMESTAMPS
  {
    if 0 <= unix < END_OF_TIMESTAMPS {
      var h := unix / 3600;
      assert h < 1193047;
      assert h % 0x1_0000_0000 == h;
      assert h * 3600 < 0x1_0000_0000;
    } else if unix >= 0 {
      LateTimestamp(unix);
    }
  }

  lemma {:induction false} LateTimestamp(unix: int)
    requires unix >= END_OF_TIMESTAMPS
    ensures unix >= Timestamp(TimeBucketFromTime(unix)) + 3600
  {
    if unix < 0x1_0000_0000 + 3600 {
      assert unix / 3600 == 1193047;
      assert Timestamp(1193047) == 1904;
    }
  }
}
