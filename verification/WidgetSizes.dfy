/** For which modulus sizes the widget and the server understand each other. The widget fills
    all but the top bit of the bytes of the modulus, the server all but the top bit of the
    modulus itself. */
module WidgetSizes {
  import opened Wrappers
  import opened Arithmetic
  import opened NumberTheory
  import opened Bits
  import opened Bytes
  import opened HashSuite
  import opened Pss
  import opened Rsapbssa
  import opened RsapbssaTheorems
  import opened Widget

  /** The one condition for all that follows. */
  predicate Understood(n: nat) {
    ModulusLen(n) < 97 || (ModulusLen(n) > 97 && BitLen(n) % 8 == 0)
  }

  // ----- two encodings of the same length differ in their first byte only

  /** The first byte of the masked data block, before its top bits are cleared. */
  function FirstByte(suite: Suite, mp: Bytes, salt: Bytes, emLen: nat): Byte
    requires |salt| == SALT_LEN && emLen >= 98
  {
    XorByte(DataBlock(emLen - HASH_LEN - 1, salt)[0],
            Mgf1(suite, SaltedHash(suite, mp, salt), emLen - HASH_LEN - 1)[0])
  }

  lemma {:induction false} HeadAndTail(suite: Suite, mp: Bytes, salt: Bytes, a: nat, b: nat)
    requires |salt| == SALT_LEN && EmLen(a) == EmLen(b) >= 98
    ensures var (x, y) := (PssEncode(suite, mp, salt, a).value, PssEncode(suite, mp, salt, b).value);
      && x[1..] == y[1..]
      && x[0] == BitAnd(FirstByte(suite, mp, salt, EmLen(a)), Keep(a))
      && y[0] == BitAnd(FirstByte(suite, mp, salt, EmLen(a)), Keep(b))
  {
    var h := SaltedHash(suite, mp, salt);
    var dbLen := EmLen(a) - HASH_LEN - 1;
    var db, mask := DataBlock(dbLen, salt), Mgf1(suite, h, dbLen);
    SplitHead(Mask(db, mask, Keep(a)), h + [TRAILER]);
    SplitHead(Mask(db, mask, Keep(b)), h + [TRAILER]);
    assert Mask(db, mask, Keep(a))[1..] == Mask(db, mask, Keep(b))[1..];
    assert Mask(db, mask, Keep(a)) + h + [TRAILER] == Mask(db, mask, Keep(a)) + (h + [TRAILER]);
    assert Mask(db, mask, Keep(b)) + h + [TRAILER] == Mask(db, mask, Keep(b)) + (h + [TRAILER]);
  }

  lemma {:induction false} SplitHead(a: Bytes, b: Bytes)
    requires a != []
    ensures (a + b)[0] == a[0] && (a + b)[1..] == a[1..] + b
  {
  }

  /** How the server's and the widget's top bits compare, where both fill the same bytes. */
  lemma {:induction false} TopBitsOf(n: nat)
    requires UsableModulus(n) && VerifiableSize(n)
    ensures ModulusLen(n) >= 2 && EmLen(EmBits(n)) == EmLen(WidgetEmBits(ModulusLen(n))) == ModulusLen(n)
    ensures TopBits(WidgetEmBits(ModulusLen(n))) == 1 && TopBits(EmBits(n)) == 8 * ModulusLen(n) - EmBits(n) >= 1
    ensures TopBits(EmBits(n)) == 1 <==> BitLen(n) % 8 == 0
  {
    ModulusLenBounds(n);
    SizesAgree(n);
    WholeEmLen(ModulusLen(n));
    SpareBits(BitLen(n));
  }

  lemma {:induction false} SpareBits(b: nat)
    requires b > 0 && b % 8 != 1
    ensures var spare := 8 * ((b + 7) / 8) - (b - 1); spare >= 1 && (spare == 1 <==> b % 8 == 0)
  {
  }

  /** Keeping fewer bits of a byte makes no difference exactly if those bits are zero. */
  lemma {:induction false} KeepFewer(x: Byte, t: nat)
    requires 1 <= t <= 7
    ensures BitAnd(x, KeepMask(t)) <= BitAnd(x, KeepMask(1)) < 128 && BitAnd(x, KeepMask(t)) < Pow(2, 8 - t)
    ensures BitAnd(x, KeepMask(1)) == BitAnd(x, KeepMask(t)) <==> BitAnd(x, KeepMask(1)) < Pow(2, 8 - t)
  {
    AndLow(x, 7);
    AndLow(x, 8 - t);
    assert Pow(2, 7) == 128;
    PowAdd(2, 8 - t, t - 1);
    RemainderOfRemainder(x, Pow(2, 8 - t), Pow(2, t - 1));
    SmallRemainder(x % 128, Pow(2, 8 - t));
  }

  lemma {:induction false} RemainderOfRemainder(x: nat, q: nat, k: nat)
    requires q > 0 && k > 0 && q * k > 0
    ensures x % (q * k) % q == x % q && x % q <= x % (q * k)
  {
    var y, j := x % (q * k), x / (q * k);
    assert x == (q * k) * j + y;
    MulRearrange(q, k, j);
    CongIntro(x, y, q, k * j);
    ModAtMost(y, q);
  }

  lemma {:induction false} ModAtMost(y: nat, q: nat)
    requires q > 0
    ensures y % q <= y
  {
    if y < q { ModUnique(y, q, 0, y); }
  }

  /** The widget's encoding is the server's exactly if, as a number, it has no more bits than
      the server allows; otherwise it is larger by a multiple of the top byte. */
  lemma {:induction false} EncodingExact(suite: Suite, mp: Bytes, salt: Bytes, n: nat)
    requires UsableModulus(n) && VerifiableSize(n) && ModulusLen(n) >= 98 && |salt| == SALT_LEN
    ensures EmLen(EmBits(n)) == EmLen(WidgetEmBits(ModulusLen(n))) == ModulusLen(n)
    ensures var (w, s) := (PssEncode(suite, mp, salt, WidgetEmBits(ModulusLen(n))).value,
                           PssEncode(suite, mp, salt, EmBits(n)).value);
      && s[0] <= w[0] < 128 && s[0] < Pow(2, 8 - TopBits(EmBits(n)))
      && (w == s <==> w[0] == s[0]) && (w == s <==> OS2IP(w) < Pow(2, EmBits(n)))
      && OS2IP(w) == OS2IP(s) + (w[0] - s[0]) * Pow(256, ModulusLen(n) - 1)
  {
    TopBitsOf(n);
    var k := ModulusLen(n);
    var w, s := PssEncode(suite, mp, salt, WidgetEmBits(k)).value, PssEncode(suite, mp, salt, EmBits(n)).value;
    HeadAndTail(suite, mp, salt, WidgetEmBits(k), EmBits(n));
    HeadsDecide(w, s, FirstByte(suite, mp, salt, k), TopBits(EmBits(n)), EmBits(n));
  }

  /** Byte strings that differ only in how many low bits of x their first byte keeps. */
  lemma {:induction false} HeadsDecide(w: Bytes, s: Bytes, x: Byte, t: nat, bits: nat)
    requires |w| == |s| > 0 && w[1..] == s[1..] && 1 <= t <= 7 && bits == 8 * |w| - t
    requires w[0] == BitAnd(x, KeepMask(1)) && s[0] == BitAnd(x, KeepMask(t))
    ensures s[0] <= w[0] < 128 && s[0] < Pow(2, 8 - t)
    ensures (w == s <==> w[0] == s[0]) && (w == s <==> OS2IP(w) < Pow(2, bits))
    ensures OS2IP(w) == OS2IP(s) + (w[0] - s[0]) * Pow(256, |w| - 1)
  {
    KeepFewer(x, t);
    ValueBoundByHead(w, t);
    assert w == [w[0]] + w[1..] && s == [s[0]] + s[1..];
    SameTail(w, s);
  }

  lemma {:induction false} SameTail(w: Bytes, s: Bytes)
    requires |w| == |s| > 0 && w[1..] == s[1..]
    ensures OS2IP(w) == OS2IP(s) + (w[0] - s[0]) * Pow(256, |w| - 1)
  {
    OS2IPHead(w);
    OS2IPHead(s);
    LeadingDigits(OS2IP(w), OS2IP(s), w[0], s[0], Pow(256, |w| - 1), OS2IP(w[1..]));
  }

  lemma {:induction false} LeadingDigits(x: int, y: int, a: int, b: int, p: int, tail: int)
    requires x == a * p + tail && y == b * p + tail
    ensures x == y + (a - b) * p
  {
  }

  // ----- hash functions under which the top bits are set

  /** Every SHA-384 digest is all ones. */
  function Ones(): Suite {
    Suite(_ => Zeros(32), _ => Fill(48), (_, _) => Zeros(32), (_, _) => Zeros(48), (_, _, _, _) => Zeros(32))
  }

  function Fill(n: nat): (b: Bytes)
    ensures |b| == n && forall i :: 0 <= i < n ==> b[i] == 255
  {
    seq(n, _ => 255)
  }

  lemma {:induction false} OnesMask(h: Bytes, length: nat)
    ensures Mgf1(Ones(), h, length) == Fill(length)
  {
    forall j | 0 <= j < length
      ensures Mgf1(Ones(), h, length)[j] == 255
    {
      StreamByte(Mgf1Block(Ones(), h), length, j);
    }
  }

  lemma {:induction false} FlippedByte(a: Byte)
    requires a <= 1
    ensures XorByte(a, 255) == 255 - a
  {
    ByteWidth();
    XorOnes(a, 8);
  }

  lemma {:induction false} HeadOfBlock(dbLen: nat, salt: Bytes)
    requires dbLen >= SALT_LEN + 1 && |salt| == SALT_LEN
    ensures DataBlock(dbLen, salt)[0] <= 1
  {
  }

  lemma {:induction false} OnesFirstByte(mp: Bytes, salt: Bytes, emLen: nat)
    requires |salt| == SALT_LEN && emLen >= 98
    ensures FirstByte(Ones(), mp, salt, emLen) >= 254
  {
    var dbLen := emLen - HASH_LEN - 1;
    var db, mask := DataBlock(dbLen, salt), Mgf1(Ones(), SaltedHash(Ones(), mp, salt), dbLen);
    OnesMask(SaltedHash(Ones(), mp, salt), dbLen);
    HeadOfBlock(dbLen, salt);
    FlippedByte(db[0]);
    assert mask[0] == 255;
  }

  lemma {:induction false} HighBytes(x: Byte)
    requires x >= 254
    ensures BitAnd(x, KeepMask(1)) == x - 128
  {
    LowBits(x, 1);
    SevenBits();
    ModUnique(x, 128, 1, x - 128);
  }

  lemma {:induction false} SevenBits()
    ensures Pow(2, 7) == 128
  {
  }

  /** Under these hash functions the widget sets bits that the server clears, whenever the
      modulus does not fill its bytes. */
  lemma {:induction false} OnesDiffer(mp: Bytes, salt: Bytes, n: nat)
    requires UsableModulus(n) && VerifiableSize(n) && BitLen(n) % 8 != 0 && ModulusLen(n) >= 98 && |salt| == SALT_LEN
    ensures EmLen(EmBits(n)) == EmLen(WidgetEmBits(ModulusLen(n))) == ModulusLen(n)
    ensures var (w, s) := (PssEncode(Ones(), mp, salt, WidgetEmBits(ModulusLen(n))).value,
                           PssEncode(Ones(), mp, salt, EmBits(n)).value);
      s[0] < w[0]
  {
    TopBitsOf(n);
    HeadAndTail(Ones(), mp, salt, WidgetEmBits(ModulusLen(n)), EmBits(n));
    OnesFirstByte(mp, salt, ModulusLen(n));
    HighBitsCleared(FirstByte(Ones(), mp, salt, ModulusLen(n)), TopBits(EmBits(n)));
  }

  lemma {:induction false} HighBitsCleared(x: Byte, t: nat)
    requires x >= 254 && 2 <= t <= 7
    ensures BitAnd(x, KeepMask(t)) < BitAnd(x, KeepMask(1))
  {
    HighBytes(x);
    KeepFewer(x, t);
    PowMonotone(2, 8 - t, 6);
    assert Pow(2, 6) == 64;
  }

  /** One byte more in the data block is one more masked zero in front. */
  lemma {:induction false} OnesLonger(mp: Bytes, salt: Bytes, k: nat)
    requires k >= 98 && |salt| == SALT_LEN
    ensures EmLen(8 * k) == k && EmLen(WidgetEmBits(k + 1)) == k + 1
    ensures PssEncode(Ones(), mp, salt, WidgetEmBits(k + 1)).value == [127] + PssEncode(Ones(), mp, salt, 8 * k).value
  {
    var h, dbLen := SaltedHash(Ones(), mp, salt), k - HASH_LEN - 1;
    OnesMask(h, dbLen);
    OnesMask(h, dbLen + 1);
    LongerBlock(dbLen, salt);
    LongerMask(DataBlock(dbLen, salt));
    Regroup(Mask(DataBlock(dbLen, salt), Fill(dbLen), KeepMask(0)), h);
  }

  lemma {:induction false} Regroup(masked: Bytes, h: Bytes)
    ensures ([127] + masked) + h + [TRAILER] == [127] + (masked + h + [TRAILER])
  {
  }

  lemma {:induction false} LongerBlock(dbLen: nat, salt: Bytes)
    requires dbLen >= SALT_LEN + 1 && |salt| == SALT_LEN
    ensures DataBlock(dbLen + 1, salt) == [0] + DataBlock(dbLen, salt)
  {
  }

  lemma {:induction false} LongerMask(db: Bytes)
    requires db != []
    ensures Mask([0] + db, Fill(|db| + 1), KeepMask(1)) == [127] + Mask(db, Fill(|db|), KeepMask(0))
  {
    MaskedZero(0);
    KeepsAll(XorByte(db[0], 255));
    PrefixedMask(db, Fill(|db|), Fill(|db| + 1), KeepMask(1), KeepMask(0));
  }

  lemma {:induction false} PrefixedMask(db: Bytes, mask: Bytes, longer: Bytes, keep: Byte, all: Byte)
    requires db != [] && |db| == |mask| && longer == [255] + mask
    requires BitAnd(XorByte(db[0], mask[0]), all) == XorByte(db[0], mask[0])
    ensures Mask([0] + db, longer, keep) == [BitAnd(XorByte(0, 255), keep)] + Mask(db, mask, all)
  {
    assert ([0] + db)[1..] == db && longer[1..] == mask;
    assert Xor(db, mask) == [XorByte(db[0], mask[0])] + Xor(db[1..], mask[1..]);
  }

  lemma {:induction false} MaskedZero(zero: Byte)
    requires zero == 0
    ensures BitAnd(XorByte(zero, 255), KeepMask(1)) == 127
  {
    FlippedByte(zero);
    HighBytes(XorByte(zero, 255));
  }

  lemma {:induction false} KeepsAll(x: Byte)
    ensures BitAnd(x, KeepMask(0)) == x
  {
    LowBits(x, 0);
    ByteWidth();
    ModUnique(x, 256, 0, x);
  }

  // ----- encoding

  function WidgetSide(suite: Suite, mp: Bytes, salt: Bytes, n: nat): Result<Bytes, WidgetError>
    requires UsableModulus(n) && |salt| == SALT_LEN
  {
    ModulusLenBounds(n);
    WidgetEncode(suite, mp, salt, WidgetEmBits(ModulusLen(n)))
  }

  function ServerSide(suite: Suite, mp: Bytes, salt: Bytes, n: nat): Result<Bytes, PssError>
    requires UsableModulus(n) && |salt| == SALT_LEN
  {
    PssEncode(suite, mp, salt, EmBits(n))
  }

  predicate SameEncoding(w: Result<Bytes, WidgetError>, s: Result<Bytes, PssError>) {
    (w.Ok? <==> s.Ok?) && (w.Ok? ==> w.value == s.value)
  }

  ghost predicate EncodesAlike(n: nat)
    requires UsableModulus(n)
  {
    forall suite: Suite, mp: Bytes, salt: Bytes :: |salt| == SALT_LEN ==>
      SameEncoding(WidgetSide(suite, mp, salt, n), ServerSide(suite, mp, salt, n))
  }

  lemma {:induction false} Rooms(n: nat)
    requires UsableModulus(n)
    ensures ModulusLen(n) >= 2 && EmLen(WidgetEmBits(ModulusLen(n))) == ModulusLen(n)
    ensures RoomForSalt(n) <==> ModulusLen(n) >= 99 || (ModulusLen(n) == 98 && VerifiableSize(n))
    ensures !VerifiableSize(n) ==> EmBits(n) == 8 * (ModulusLen(n) - 1)
  {
    ModulusLenBounds(n);
    WholeEmLen(ModulusLen(n));
    BytesOfBits(BitLen(n));
  }

  lemma {:induction false} BytesOfBits(b: nat)
    requires b > 0
    ensures (b - 1 + 7) / 8 == (b + 7) / 8 - if b % 8 == 1 then 1 else 0
    ensures b % 8 == 1 ==> b - 1 == 8 * ((b + 7) / 8 - 1)
  {
  }

  lemma {:induction false} UnderstoodAgree(suite: Suite, mp: Bytes, salt: Bytes, n: nat)
    requires UsableModulus(n) && Understood(n) && |salt| == SALT_LEN
    ensures SameEncoding(WidgetSide(suite, mp, salt, n), ServerSide(suite, mp, salt, n))
  {
    Rooms(n);
    SameEmBits(n);
    WidgetEncodeAgrees(suite, mp, salt, EmBits(n));
  }

  /** The widget's encoding, as a number, is c top bytes above the server's. */
  ghost predicate Above(suite: Suite, mp: Bytes, salt: Bytes, n: nat, c: int)
    requires UsableModulus(n) && RoomForSalt(n) && |salt| == SALT_LEN
  {
    ModulusLenBounds(n);
    var w := WidgetSide(suite, mp, salt, n);
    w.Ok? && OS2IP(w.value) == OS2IP(ServerSide(suite, mp, salt, n).value) + c * Pow(256, ModulusLen(n) - 1)
  }

  lemma {:induction false} OnesAbove(mp: Bytes, salt: Bytes, n: nat) returns (c: nat)
    requires UsableModulus(n) && RoomForSalt(n) && VerifiableSize(n) && BitLen(n) % 8 != 0 && |salt| == SALT_LEN
    ensures 0 < c < 128 && Above(Ones(), mp, salt, n, c)
  {
    Rooms(n);
    OnesDiffer(mp, salt, n);
    EncodingExact(Ones(), mp, salt, n);
    c := WidgetSide(Ones(), mp, salt, n).value[0] - ServerSide(Ones(), mp, salt, n).value[0];
  }

  lemma {:induction false} OnesAboveByOneByte(mp: Bytes, salt: Bytes, n: nat)
    requires UsableModulus(n) && RoomForSalt(n) && !VerifiableSize(n) && |salt| == SALT_LEN
    ensures Above(Ones(), mp, salt, n, 127)
  {
    Rooms(n);
    OnesLonger(mp, salt, ModulusLen(n) - 1);
    PrefixedValue(127, ServerSide(Ones(), mp, salt, n).value);
  }

  /** Under all-ones digests the two encodings differ by a multiple of the top byte, for every
      modulus that leaves bits of it free. */
  lemma {:induction false} OnesOffset(mp: Bytes, salt: Bytes, n: nat) returns (c: nat)
    requires UsableModulus(n) && RoomForSalt(n) && BitLen(n) % 8 != 0 && |salt| == SALT_LEN
    ensures 0 < c < 128 && Above(Ones(), mp, salt, n, c)
  {
    if VerifiableSize(n) {
      c := OnesAbove(mp, salt, n);
    } else {
      c := 127;
      OnesAboveByOneByte(mp, salt, n);
    }
  }

  lemma {:induction false} AboveDiffers(suite: Suite, mp: Bytes, salt: Bytes, n: nat, c: nat)
    requires UsableModulus(n) && RoomForSalt(n) && |salt| == SALT_LEN && c > 0 && Above(suite, mp, salt, n, c)
    ensures !SameEncoding(WidgetSide(suite, mp, salt, n), ServerSide(suite, mp, salt, n))
  {
    ModulusLenBounds(n);
    PowPositive(256, ModulusLen(n) - 1);
    OffsetDiffers(OS2IP(WidgetSide(suite, mp, salt, n).value), OS2IP(ServerSide(suite, mp, salt, n).value),
                  c, Pow(256, ModulusLen(n) - 1));
  }

  lemma {:induction false} OffsetDiffers(x: int, y: int, c: nat, p: nat)
    requires c > 0 && p > 0 && x == y + c * p
    ensures x != y
  {
    MulAtLeast(p, c);
  }

  lemma {:induction false} PrefixedValue(a: Byte, b: Bytes)
    ensures OS2IP([a] + b) == a * Pow(256, |b|) + OS2IP(b)
  {
    OS2IPHead([a] + b);
    assert ([a] + b)[1..] == b;
  }

  lemma {:induction false} OnesDisagree(mp: Bytes, salt: Bytes, n: nat)
    requires UsableModulus(n) && !Understood(n) && |salt| == SALT_LEN
    ensures WidgetSide(Ones(), mp, salt, n).Ok?
    ensures !SameEncoding(WidgetSide(Ones(), mp, salt, n), ServerSide(Ones(), mp, salt, n))
  {
    Rooms(n);
    if RoomForSalt(n) {
      var c := OnesOffset(mp, salt, n);
      AboveDiffers(Ones(), mp, salt, n, c);
    }
  }

  /** The two encoders agree on all inputs, errors included, exactly for moduli that fill
      their bytes and have at least 98 of them, and for those too short for both. */
  lemma {:induction false} EncodesAlikeExactly(n: nat)
    requires UsableModulus(n)
    ensures EncodesAlike(n) <==> Understood(n)
  {
    if Understood(n) {
      forall suite: Suite, mp: Bytes, salt: Bytes | |salt| == SALT_LEN
        ensures SameEncoding(WidgetSide(suite, mp, salt, n), ServerSide(suite, mp, salt, n))
      {
        UnderstoodAgree(suite, mp, salt, n);
      }
    } else {
      OnesDisagree([], Zeros(SALT_LEN), n);
    }
  }

  // ----- what the server makes of the widget's encoding

  /** The signed number has a size that the server can verify. */
  predicate FitsServer(n: nat, m: nat)
    requires UsableModulus(n)
  {
    RoomForSalt(n) && VerifiableSize(n) && m < Pow(2, EmBits(n))
  }

  lemma {:induction false} OddCoprime(n: nat, j: nat)
    requires n % 2 == 1
    ensures Pow(2, j) > 0 && Coprime(n, Pow(2, j))
  {
    PowPositive(2, j);
    if j == 0 {
      CoprimeIntro(n, 1, 0, 1);
    } else {
      OddCoprime(n, j - 1);
      TwoIsPrime();
      PrimeCoprime(2, n);
      CoprimeSym(2, n);
      CoprimeProduct(n, 2, Pow(2, j - 1));
    }
  }

  /** Reducing a number by an odd modulus, fewer than 256 times, changes its last byte. */
  lemma {:induction false} ReductionShows(m: nat, n: nat)
    requires n % 2 == 1 && n <= m < 128 * n
    ensures (m % n) % 256 != m % 256
  {
    var q := m / n;
    assert m == n * q + m % n;
    QuotientRange(m, n);
    if (m % n) % 256 == m % 256 {
      SameRemainder(m, m % n);
      OddCoprime(n, 8);
      ByteWidth();
      CoprimeSym(n, 256);
      EuclidLemma(256, n, q);
      DividesBound(256, q);
    }
  }

  lemma {:induction false} QuotientRange(m: nat, n: nat)
    requires 0 < n <= m < 128 * n
    ensures 1 <= m / n < 128
  {
  }

  lemma {:induction false} SameRemainder(a: int, b: int)
    requires a % 256 == b % 256
    ensures Divides(256, a - b)
  {
  }

  lemma {:induction false} EndsInTrailer(suite: Suite, mp: Bytes, salt: Bytes, n: nat)
    requires UsableModulus(n) && |salt| == SALT_LEN && RoomForSalt(n) && VerifiableSize(n)
    ensures var w := WidgetSide(suite, mp, salt, n);
      w.Ok? && |w.value| == ModulusLen(n) >= 98 && OS2IP(w.value) % 256 == TRAILER
      && OS2IP(w.value) < 128 * Pow(256, ModulusLen(n) - 1)
  {
    Rooms(n);
    EncodingExact(suite, mp, salt, n);
    LowHead(WidgetSide(suite, mp, salt, n).value);
    LastDigit(WidgetSide(suite, mp, salt, n).value);
  }

  lemma {:induction false} LowHead(w: Bytes)
    requires w != [] && w[0] < 128
    ensures OS2IP(w) < 128 * Pow(256, |w| - 1)
  {
    SevenBits();
    ValueBoundByHead(w, 1);
    Pow256(|w| - 1);
    PowAdd(2, 7, 8 * (|w| - 1));
  }

  lemma {:induction false} LastDigit(b: Bytes)
    requires b != []
    ensures OS2IP(b) % 256 == b[|b| - 1]
  {
    ModUnique(OS2IP(b), 256, OS2IP(b[..|b| - 1]), b[|b| - 1]);
  }

  lemma {:induction false} BytesBelow(n: nat)
    requires UsableModulus(n)
    ensures ModulusLen(n) >= 2 && Pow(256, ModulusLen(n) - 1) <= n && Pow(2, EmBits(n)) <= n < Pow(256, ModulusLen(n))
  {
    ModulusLenBounds(n);
    BitLenBounds(n);
    Pow256(ModulusLen(n) - 1);
    PowMonotone(2, 8 * (ModulusLen(n) - 1), EmBits(n));
  }

  lemma {:induction false} ReducedTrailer(m: nat, n: nat, k: nat)
    requires n % 2 == 1 && k > 0 && n <= m < 128 * n && m % 256 == TRAILER
    ensures I2OSP(m % n, k)[k - 1] != TRAILER
  {
    ReductionShows(m, n);
  }

  /** Whatever the widget encodes, the server verifies it exactly if it has no more bits than
      the server's own encodings: a number that is too large keeps its extra bits below the
      modulus, and loses its trailer by reduction above it. */
  lemma {:induction false} ServerVerdict(suite: Suite, mp: Bytes, salt: Bytes, n: nat)
    requires UsableModulus(n) && n % 2 == 1 && |salt| == SALT_LEN && WidgetSide(suite, mp, salt, n).Ok?
    ensures var m := OS2IP(WidgetSide(suite, mp, salt, n).value);
      PssVerify(suite, mp, I2OSP(m % n, ModulusLen(n)), EmBits(n)) <==> FitsServer(n, m)
  {
    Rooms(n);
    SizesAgree(n);
    if RoomForSalt(n) && VerifiableSize(n) {
      EndsInTrailer(suite, mp, salt, n);
      var m := OS2IP(WidgetSide(suite, mp, salt, n).value);
      BytesBelow(n);
      if m < n {
        ModUnique(m, n, 0, m);
        UnreducedVerdict(suite, mp, salt, n);
      } else {
        MulMonotone(128, Pow(256, ModulusLen(n) - 1), n);
        ReducedTrailer(m, n, ModulusLen(n));
      }
    }
  }

  lemma {:induction false} MulMonotone(c: nat, a: nat, b: nat)
    requires a <= b
    ensures c * a <= c * b
  {
  }

  lemma {:induction false} UnreducedVerdict(suite: Suite, mp: Bytes, salt: Bytes, n: nat)
    requires UsableModulus(n) && |salt| == SALT_LEN && RoomForSalt(n) && VerifiableSize(n)
    ensures var w := WidgetSide(suite, mp, salt, n);
      w.Ok? && (PssVerify(suite, mp, I2OSP(OS2IP(w.value), ModulusLen(n)), EmBits(n)) <==>
                  OS2IP(w.value) < Pow(2, EmBits(n)))
  {
    Rooms(n);
    EncodingExact(suite, mp, salt, n);
    var w := WidgetSide(suite, mp, salt, n).value;
    EncodeDecode(w);
    if PssVerify(suite, mp, w, EmBits(n)) {
      var other := VerifiedIsEncoded(suite, mp, w, EmBits(n));
      EncodingBound(suite, mp, other, EmBits(n));
    } else if w == ServerSide(suite, mp, salt, n).value {
      EncodedVerifies(suite, mp, salt, EmBits(n));
    }
  }

  // ----- blinding

  predicate SameBlinding(w: Result<WidgetBlinded, WidgetError>, s: Result<Blinded, Error>) {
    && (w.Ok? <==> s.Ok?)
    && (w.Ok? ==> w.value.blindedMsg == s.value.blindedMsg && w.value.rInv == s.value.inv)
  }

  ghost predicate BlindsAlike(pk: PublicKey, nBytes: Bytes)
    requires UsableModulus(pk.N) && |nBytes| >= 2 && OS2IP(nBytes) > 1
  {
    forall suite: Suite, msg: Bytes, info: Bytes, salt: Bytes, rBytes: Bytes :: |salt| == SALT_LEN ==>
      SameBlinding(WidgetBlind(suite, nBytes, msg, info, salt, rBytes),
                   Blind(suite, pk, msg, info, salt, OS2IP(rBytes) % pk.N))
  }

  /** The widget can stretch a key further than HKDF allows; the server cannot. */
  predicate Stretchable(n: nat) {
    LambdaLen(n) + 16 <= HKDF_LIMIT
  }

  lemma {:induction false} ShortBlindingsFail(suite: Suite, nBytes: Bytes, pk: PublicKey, msg: Bytes, info: Bytes,
                                              salt: Bytes, rBytes: Bytes)
    requires UsableModulus(pk.N) && SentModulus(nBytes, pk.N) && |salt| == SALT_LEN && ModulusLen(pk.N) < 97
    ensures |nBytes| >= 2
    ensures WidgetBlind(suite, nBytes, msg, info, salt, rBytes).Err?
    ensures Blind(suite, pk, msg, info, salt, OS2IP(rBytes) % pk.N).Err?
  {
    Rooms(pk.N);
  }

  /** The number one is its own inverse, and blinds nothing. */
  lemma {:induction false} OneBlinds(n: nat, m: nat, e: nat)
    requires n > 1
    ensures OS2IP([1]) % n == 1 && NumberTheory.ModInverse(1, n).Some? && BlindedInteger(m, 1, e, n) == m % n
  {
    PrefixedValue(1, []);
    ModUnique(1, n, 0, 1);
    CoprimeIntro(1, n, 1, 0);
    ModInverseSpec(1, n);
    PowOne(e);
  }

  lemma {:induction false} OddShift(m: nat, s: nat, c: nat, n: nat, j: nat)
    requires n % 2 == 1 && n > c > 0 && m == s + c * Pow(2, j)
    ensures m % n != s % n
  {
    OddCoprime(n, j);
    if Cong(m, s, n) {
      CongDiff(m, s, n);
      DividesShift(n, m - s, Pow(2, j), c);
      EuclidLemma(n, Pow(2, j), c);
      DividesBound(n, c);
    }
  }

  lemma {:induction false} DividesShift(n: nat, x: int, p: int, c: int)
    requires n > 0 && Divides(n, x) && x == c * p
    ensures Divides(n, p * c)
  {
  }

  function OnesMessage(n: nat): nat
    requires UsableModulus(n) && ModulusLen(n) >= 97
  {
    Rooms(n);
    OS2IP(WidgetSide(Ones(), BuildMsgPrime([], []), Zeros(SALT_LEN), n).value)
  }

  /** With the blinding factor one and empty inputs, both sides send their encoding modulo N. */
  lemma {:induction false} WidgetSendsOnes(nBytes: Bytes, n: nat)
    requires UsableModulus(n) && SentModulus(nBytes, n) && ModulusLen(n) >= 97
    ensures |nBytes| >= 2
    ensures var w := WidgetBlind(Ones(), nBytes, [], [], Zeros(SALT_LEN), [1]);
      w.Ok? && w.value.blindedMsg == I2OSP(OnesMessage(n) % n, ModulusLen(n))
  {
    Rooms(n);
    ModulusLenBounds(n);
    OneBlinds(n, OnesMessage(n), WidgetExponent(Ones(), n, |nBytes|, []));
    BigIntToBytesIsI2OSP(OnesMessage(n) % n, |nBytes|);
  }

  lemma {:induction false} ServerSendsOnes(pk: PublicKey)
    requires UsableModulus(pk.N)
    ensures var s := Blind(Ones(), pk, [], [], Zeros(SALT_LEN), OS2IP([1]) % pk.N);
      && (s.Ok? <==> RoomForSalt(pk.N) && Stretchable(pk.N))
      && (s.Ok? ==>
            s.value.blindedMsg ==
              I2OSP(EncodedInteger(Ones(), pk.N, BuildMsgPrime([], []), Zeros(SALT_LEN)) % pk.N, ModulusLen(pk.N)))
  {
    BlindExact(Ones(), pk, [], [], Zeros(SALT_LEN), 1);
    OneBlinds(pk.N, 0, 0);
    NumberTheory.ModInverseSpec(1, pk.N);
    if RoomForSalt(pk.N) && Stretchable(pk.N) {
      OneBlinds(pk.N, EncodedInteger(Ones(), pk.N, BuildMsgPrime([], []), Zeros(SALT_LEN)),
                DerivePublicExponent(Ones(), pk.N, []).value);
    }
  }

  /** Numbers that an odd modulus does not identify are sent as different bytes. */
  lemma {:induction false} OnesBlindedApart(n: nat)
    requires UsableModulus(n) && n % 2 == 1 && RoomForSalt(n) && BitLen(n) % 8 != 0 && ModulusLen(n) >= 97
    ensures I2OSP(OnesMessage(n) % n, ModulusLen(n))
      != I2OSP(EncodedInteger(Ones(), n, BuildMsgPrime([], []), Zeros(SALT_LEN)) % n, ModulusLen(n))
  {
    var mp, k := BuildMsgPrime([], []), ModulusLen(n);
    var c := OnesOffset(mp, Zeros(SALT_LEN), n);
    var m, s := OnesMessage(n), EncodedInteger(Ones(), n, mp, Zeros(SALT_LEN));
    Pow256(k - 1);
    OddShift(m, s, c, n, 8 * (k - 1));
    ModulusLenBounds(n);
    DecodeEncode(m % n, k);
    DecodeEncode(s % n, k);
  }

  lemma {:induction false} MisunderstoodBlind(pk: PublicKey, nBytes: Bytes)
    requires UsableModulus(pk.N) && pk.N % 2 == 1 && SentModulus(nBytes, pk.N)
    requires ModulusLen(pk.N) >= 97 && !(Understood(pk.N) && Stretchable(pk.N))
    ensures |nBytes| >= 2
    ensures !SameBlinding(WidgetBlind(Ones(), nBytes, [], [], Zeros(SALT_LEN), [1]),
                          Blind(Ones(), pk, [], [], Zeros(SALT_LEN), OS2IP([1]) % pk.N))
  {
    WidgetSendsOnes(nBytes, pk.N);
    ServerSendsOnes(pk);
    Rooms(pk.N);
    if RoomForSalt(pk.N) && Stretchable(pk.N) {
      OnesBlindedApart(pk.N);
    }
  }

  /** Widget and server blind alike on all inputs exactly for the moduli whose encodings they
      agree on, as long as HKDF stretches far enough. */
  lemma {:induction false} BlindsAlikeExactly(pk: PublicKey, nBytes: Bytes)
    requires UsableModulus(pk.N) && pk.N % 2 == 1 && SentModulus(nBytes, pk.N)
    ensures |nBytes| >= 2
    ensures BlindsAlike(pk, nBytes) <==>
      ModulusLen(pk.N) < 97 || (Understood(pk.N) && Stretchable(pk.N))
  {
    Rooms(pk.N);
    if ModulusLen(pk.N) < 97 || (Understood(pk.N) && Stretchable(pk.N)) {
      forall suite: Suite, msg: Bytes, info: Bytes, salt: Bytes, rBytes: Bytes | |salt| == SALT_LEN
        ensures SameBlinding(WidgetBlind(suite, nBytes, msg, info, salt, rBytes),
                             Blind(suite, pk, msg, info, salt, OS2IP(rBytes) % pk.N))
      {
        UnderstoodBlind(suite, nBytes, pk, msg, info, salt, rBytes);
      }
    } else {
      MisunderstoodBlind(pk, nBytes);
    }
  }

  lemma {:induction false} UnderstoodBlind(suite: Suite, nBytes: Bytes, pk: PublicKey, msg: Bytes, info: Bytes,
                                           salt: Bytes, rBytes: Bytes)
    requires UsableModulus(pk.N) && SentModulus(nBytes, pk.N) && |salt| == SALT_LEN
    requires ModulusLen(pk.N) < 97 || (Understood(pk.N) && Stretchable(pk.N))
    ensures |nBytes| >= 2
    ensures SameBlinding(WidgetBlind(suite, nBytes, msg, info, salt, rBytes),
                         Blind(suite, pk, msg, info, salt, OS2IP(rBytes) % pk.N))
  {
    if ModulusLen(pk.N) < 97 {
      ShortBlindingsFail(suite, nBytes, pk, msg, info, salt, rBytes);
    } else {
      WidgetBlindAgrees(suite, nBytes, pk, msg, info, salt, rBytes);
    }
  }

  // ----- the whole exchange

  /** What the widget holds after it has blinded, the server has signed and it has unblinded. */
  function WidgetSignature(suite: Suite, nBytes: Bytes, kp: KeyPair, msg: Bytes, info: Bytes,
                           salt: Bytes, rBytes: Bytes):
      Option<Bytes>
    requires UsableModulus(kp.N) && kp.Phi > 0 && |nBytes| >= 2 && OS2IP(nBytes) > 1 && |salt| == SALT_LEN
  {
    var w := WidgetBlind(suite, nBytes, msg, info, salt, rBytes);
    if w.Err? then None
    else
      var signed := BlindSign(suite, kp, w.value.blindedMsg, info);
      if signed.Err? then None else Some(WidgetUnblind(signed.value, w.value.rInv, kp.N, |nBytes|))
  }

  lemma {:induction false} SafeKeyIsOdd(kp: KeyPair)
    requires SafeKey(kp)
    ensures kp.N % 2 == 1
  {
    OddProduct(kp.P, kp.Q);
  }

  lemma {:induction false} OddProduct(p: nat, q: nat)
    requires p % 2 == 1 && q % 2 == 1
    ensures (p * q) % 2 == 1
  {
    CongMul(p, 1, q, 1, 2);
  }

  /** The signature that comes out is the direct one on the widget's encoding modulo N. */
  lemma {:induction false} WidgetSignatureIs(suite: Suite, nBytes: Bytes, kp: KeyPair, msg: Bytes, info: Bytes,
                                             salt: Bytes, rBytes: Bytes)
    requires SafeKey(kp) && SentModulus(nBytes, kp.N) && |salt| == SALT_LEN && Stretchable(kp.N)
    requires kp.Phi > 0 && |nBytes| >= 2 && WidgetBlind(suite, nBytes, msg, info, salt, rBytes).Ok?
    ensures DeriveKeyPair(suite, kp, info).Ok? && WidgetSide(suite, BuildMsgPrime(msg, info), salt, kp.N).Ok?
    ensures var m := OS2IP(WidgetSide(suite, BuildMsgPrime(msg, info), salt, kp.N).value);
      var d := DeriveKeyPair(suite, kp, info).value.1;
      WidgetSignature(suite, nBytes, kp, msg, info, salt, rBytes) == Some(I2OSP(ModExp(m, d, kp.N), ModulusLen(kp.N)))
  {
    var n, k := kp.N, ModulusLen(kp.N);
    DeriveKeyPairTotal(suite, kp, info);
    DerivedExponentsInvert(suite, kp, info);
    WidgetExponentAgrees(suite, n, info);
    var (e, d) := DeriveKeyPair(suite, kp, info).value;
    var w := WidgetBlind(suite, nBytes, msg, info, salt, rBytes).value;
    var m := OS2IP(WidgetSide(suite, BuildMsgPrime(msg, info), salt, n).value);
    var r := OS2IP(rBytes) % n;
    var z := BlindedInteger(m, r, e, n);
    ModulusLenBounds(n);
    BigIntToBytesIsI2OSP(z, k);
    DecodeEncode(z, k);
    BlindSignExact(suite, kp, w.blindedMsg, info);
    DecodeEncode(ModExp(z, d, n), k);
    NumberTheory.ModInverseSpec(r, n);
    UnblindAlgebra(kp, e, d, m, r, w.rInv);
    WidgetUnblindAgrees(n, I2OSP(ModExp(z, d, n), k), w.rInv);
  }

  lemma {:induction false} RecoveredModulo(kp: KeyPair, e: nat, d: nat, m: nat)
    requires RsaKey(kp) && InverseExponents(kp, e, d)
    ensures ModExp(ModExp(m, d, kp.N), e, kp.N) == m % kp.N
  {
    RsaInteger(kp, e, d, m);
    ModExpTwice(m, d, e, kp.N);
  }

  /** The server verifies what the widget ends up with exactly if the widget's encoding has no
      more bits than the server's; moduli that fill at least 98 bytes always qualify. */
  lemma {:induction false} WidgetEndToEnd(suite: Suite, nBytes: Bytes, kp: KeyPair, msg: Bytes, info: Bytes,
                                          salt: Bytes, rBytes: Bytes)
    requires SafeKey(kp) && SentModulus(nBytes, kp.N) && |salt| == SALT_LEN && Stretchable(kp.N)
    requires |nBytes| >= 2 && WidgetBlind(suite, nBytes, msg, info, salt, rBytes).Ok?
    ensures kp.Phi > 0 && WidgetSide(suite, BuildMsgPrime(msg, info), salt, kp.N).Ok?
    ensures var sig := WidgetSignature(suite, nBytes, kp, msg, info, salt, rBytes);
      var m := OS2IP(WidgetSide(suite, BuildMsgPrime(msg, info), salt, kp.N).value);
      && sig.Some? && |sig.value| == ModulusLen(kp.N)
      && (Verify(suite, kp.Public(), msg, info, sig.value).Ok? <==> FitsServer(kp.N, m))
  {
    PhiBounds(kp);
    WidgetSignatureIs(suite, nBytes, kp, msg, info, salt, rBytes);
    DerivedExponentsInvert(suite, kp, info);
    SafeKeyIsOdd(kp);
    var mp, n, k := BuildMsgPrime(msg, info), kp.N, ModulusLen(kp.N);
    var m := OS2IP(WidgetSide(suite, mp, salt, n).value);
    var (e, d) := DeriveKeyPair(suite, kp, info).value;
    RecoveredModulo(kp, e, d, m);
    ModulusLenBounds(n);
    DecodeEncode(ModExp(m, d, n), k);
    ServerVerdict(suite, mp, salt, n);
  }

  predicate Verifies(suite: Suite, nBytes: Bytes, kp: KeyPair, msg: Bytes, info: Bytes, salt: Bytes, rBytes: Bytes)
    requires UsableModulus(kp.N) && kp.Phi > 0 && |nBytes| >= 2 && OS2IP(nBytes) > 1 && |salt| == SALT_LEN
  {
    var sig := WidgetSignature(suite, nBytes, kp, msg, info, salt, rBytes);
    sig.Some? && Verify(suite, kp.Public(), msg, info, sig.value).Ok?
  }

  /** Whenever the widget blinds, it ends up with a signature that the server verifies. */
  ghost predicate AlwaysVerifies(kp: KeyPair, nBytes: Bytes)
    requires UsableModulus(kp.N) && kp.Phi > 0 && |nBytes| >= 2 && OS2IP(nBytes) > 1
  {
    forall suite: Suite, msg: Bytes, info: Bytes, salt: Bytes, rBytes: Bytes ::
      |salt| == SALT_LEN && WidgetBlind(suite, nBytes, msg, info, salt, rBytes).Ok? ==>
        Verifies(suite, nBytes, kp, msg, info, salt, rBytes)
  }

  lemma {:induction false} UnderstoodFits(suite: Suite, mp: Bytes, salt: Bytes, n: nat)
    requires UsableModulus(n) && Understood(n) && ModulusLen(n) > 97 && |salt| == SALT_LEN
    ensures WidgetSide(suite, mp, salt, n).Ok? && FitsServer(n, OS2IP(WidgetSide(suite, mp, salt, n).value))
  {
    Rooms(n);
    SameEmBits(n);
    EncodingBound(suite, mp, salt, EmBits(n));
  }

  lemma {:induction false} MisunderstoodDoesNotFit(mp: Bytes, salt: Bytes, n: nat)
    requires UsableModulus(n) && !Understood(n) && |salt| == SALT_LEN
    ensures WidgetSide(Ones(), mp, salt, n).Ok? && !FitsServer(n, OS2IP(WidgetSide(Ones(), mp, salt, n).value))
  {
    OnesDisagree(mp, salt, n);
    Rooms(n);
    if RoomForSalt(n) && VerifiableSize(n) {
      EncodingExact(Ones(), mp, salt, n);
    }
  }

  lemma {:induction false} UnstretchableFails(suite: Suite, nBytes: Bytes, kp: KeyPair, msg: Bytes, info: Bytes,
                                              salt: Bytes, rBytes: Bytes)
    requires SafeKey(kp) && SentModulus(nBytes, kp.N) && |salt| == SALT_LEN && !Stretchable(kp.N)
    ensures kp.Phi > 0 && |nBytes| >= 2 && WidgetSignature(suite, nBytes, kp, msg, info, salt, rBytes).None?
  {
    PhiBounds(kp);
    Rooms(kp.N);
  }

  /** For safe keys the exchange always ends in a valid signature exactly for the moduli whose
      encodings widget and server agree on; on the others some hash function breaks it. */
  lemma {:induction false} AlwaysVerifiesExactly(kp: KeyPair, nBytes: Bytes)
    requires SafeKey(kp) && SentModulus(nBytes, kp.N)
    ensures kp.Phi > 0 && |nBytes| >= 2
    ensures AlwaysVerifies(kp, nBytes) <==>
      ModulusLen(kp.N) < 97 || (Understood(kp.N) && Stretchable(kp.N))
  {
    PhiBounds(kp);
    Rooms(kp.N);
    if ModulusLen(kp.N) < 97 || (Understood(kp.N) && Stretchable(kp.N)) {
      forall suite: Suite, msg: Bytes, info: Bytes, salt: Bytes, rBytes: Bytes |
          |salt| == SALT_LEN && WidgetBlind(suite, nBytes, msg, info, salt, rBytes).Ok?
        ensures Verifies(suite, nBytes, kp, msg, info, salt, rBytes)
      {
        UnderstoodVerifies(suite, nBytes, kp, msg, info, salt, rBytes);
      }
    } else {
      MisunderstoodVerifiesNot(kp, nBytes);
    }
  }

  lemma {:induction false} UnderstoodVerifies(suite: Suite, nBytes: Bytes, kp: KeyPair, msg: Bytes, info: Bytes,
                                              salt: Bytes, rBytes: Bytes)
    requires SafeKey(kp) && SentModulus(nBytes, kp.N) && |salt| == SALT_LEN
    requires ModulusLen(kp.N) < 97 || (Understood(kp.N) && Stretchable(kp.N))
    requires |nBytes| >= 2 && WidgetBlind(suite, nBytes, msg, info, salt, rBytes).Ok?
    ensures kp.Phi > 0 && Verifies(suite, nBytes, kp, msg, info, salt, rBytes)
  {
    Rooms(kp.N);
    WidgetEndToEnd(suite, nBytes, kp, msg, info, salt, rBytes);
    UnderstoodFits(suite, BuildMsgPrime(msg, info), salt, kp.N);
  }

  lemma {:induction false} MisunderstoodVerifiesNot(kp: KeyPair, nBytes: Bytes)
    requires SafeKey(kp) && SentModulus(nBytes, kp.N)
    requires ModulusLen(kp.N) >= 97 && !(Understood(kp.N) && Stretchable(kp.N))
    ensures kp.Phi > 0 && |nBytes| >= 2
    ensures WidgetBlind(Ones(), nBytes, [], [], Zeros(SALT_LEN), [1]).Ok?
    ensures !Verifies(Ones(), nBytes, kp, [], [], Zeros(SALT_LEN), [1])
  {
    PhiBounds(kp);
    WidgetSendsOnes(nBytes, kp.N);
    if Stretchable(kp.N) {
      WidgetEndToEnd(Ones(), nBytes, kp, [], [], Zeros(SALT_LEN), [1]);
      MisunderstoodDoesNotFit(BuildMsgPrime([], []), Zeros(SALT_LEN), kp.N);
    } else {
      UnstretchableFails(Ones(), nBytes, kp, [], [], Zeros(SALT_LEN), [1]);
    }
  }
}
